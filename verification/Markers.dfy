/** When sanitising a name leaves the stack marker in it, and what a marker that a node
    name hides does to the reading of its artifacts. */
module Markers {
  import opened Artifacts
  import opened Calendar
  import opened Common
  import opened Grammar

  const DOUBLE := "-stack-stack-"

  // ---- the replacement ----------------------------------------------------

  /** The scan of the replacement meets a marker directly followed by `stack-`. */
  predicate Cascades(m: string) {
    if m == "" then false
    else if MARKER <= m then "stack-" <= m[|MARKER|..] || Cascades(m[|MARKER|..])
    else Cascades(m[1..])
  }

  lemma DropHead(m: string)
    requires m != ""
    ensures DropMarkers(m) != "" && DropMarkers(m)[0] == m[0]
    ensures m[0] != '-' ==> DropMarkers(m)[1..] == DropMarkers(m[1..])
  {
  }

  /** A word without dashes stands at the front of the output exactly when it stands at
      the front of the input. */
  lemma {:induction false} WordSurvives(w: string, m: string)
    requires '-' !in w
    ensures w <= m <==> w <= DropMarkers(m)
    ensures w <= m ==> DropMarkers(m)[|w|..] == DropMarkers(m[|w|..])
  {
    if w == "" {
      assert m[0..] == m && DropMarkers(m)[0..] == DropMarkers(m);
    } else if m != "" {
      DropHead(m);
      var d := DropMarkers(m);
      assert w[0] in w;
      if m[0] == w[0] {
        WordSurvives(w[1..], m[1..]);
        FrontPeels(w, m);
        FrontPeels(w, d);
        if w <= m {
          assert m[|w|..] == m[1..][|w| - 1..];
          assert d[|w|..] == d[1..][|w| - 1..];
        }
      }
    }
  }

  lemma FrontPeels(w: string, m: string)
    requires w != "" && m != "" && w[0] == m[0]
    ensures w <= m <==> w[1..] <= m[1..]
  {
    assert w == [w[0]] + w[1..] && m == [m[0]] + m[1..];
    if w <= m {
      assert forall i :: 0 <= i < |w| ==> w[i] == m[i];
    }
  }

  lemma FrontSplits(u: string, v: string, m: string)
    ensures u + v <= m <==> u <= m && v <= m[|u|..]
  {
    if u + v <= m {
      assert forall i :: 0 <= i < |u| ==> (u + v)[i] == u[i];
      assert forall i :: 0 <= i < |v| ==> (u + v)[|u| + i] == v[i] == m[|u|..][i];
    }
    if u <= m && v <= m[|u|..] {
      assert m == u + m[|u|..];
    }
  }

  /** `stack-` stands at the front of the output exactly when it does in the input. */
  lemma StackDashSurvives(m: string)
    ensures "stack-" <= m <==> "stack-" <= DropMarkers(m)
  {
    assert "stack-" == "stack" + "-";
    WordSurvives("stack", m);
    FrontSplits("stack", "-", m);
    FrontSplits("stack", "-", DropMarkers(m));
    if "stack" <= m && m[5..] != "" {
      DropHead(m[5..]);
    }
  }

  lemma MarkerFront(m: string)
    requires m != ""
    ensures MARKER <= m <==> m[0] == '-' && "stack-" <= m[1..]
  {
    assert MARKER == "-" + "stack-";
    FrontSplits("-", "stack-", m);
  }

  /** What the output starts with, one scan step at a time. */
  lemma OutputFront(m: string)
    requires m != ""
    ensures MARKER <= DropMarkers(m) <==> MARKER <= m && "stack-" <= m[|MARKER|..]
  {
    var d := DropMarkers(m);
    DropHead(m);
    MarkerFront(d);
    MarkerFront(m);
    if MARKER <= m {
      assert d[1..] == DropMarkers(m[|MARKER|..]);
      StackDashSurvives(m[|MARKER|..]);
    } else {
      assert d[1..] == DropMarkers(m[1..]);
      StackDashSurvives(m[1..]);
    }
  }

  /** Replacing the markers leaves one behind exactly when the scan meets a marker
      directly followed by `stack-`. */
  lemma {:induction false} DropLeavesMarker(m: string)
    ensures Occurs(MARKER, DropMarkers(m)) <==> Cascades(m)
  {
    if m != "" {
      DropHead(m);
      OutputFront(m);
      var d := DropMarkers(m);
      OccursCons(MARKER, d);
      if MARKER <= m {
        assert d[1..] == DropMarkers(m[|MARKER|..]);
        DropLeavesMarker(m[|MARKER|..]);
      } else {
        assert d[1..] == DropMarkers(m[1..]);
        DropLeavesMarker(m[1..]);
      }
    }
  }

  // ---- the trims ----------------------------------------------------------

  ghost predicate HasNonDash(s: string) {
    exists i :: 0 <= i < |s| && s[i] != '-'
  }

  /** A marker occurs in `x` between two characters that are not dashes; with `seen`, one
      such character precedes `x`. */
  ghost predicate Inner(x: string, seen: bool) {
    x != "" && ((seen && MARKER <= x && HasNonDash(x[|MARKER|..])) || Inner(x[1..], seen || x[0] != '-'))
  }

  lemma {:induction false} BlankHasNoInner(x: string, seen: bool)
    requires !HasNonDash(x)
    ensures !Inner(x, seen)
  {
    if x != "" {
      MarkerAtIsPrefix(x, 0);
      assert x[0..] == x;
      assert forall i :: 0 <= i < |x[1..]| ==> x[1..][i] == x[i + 1];
      BlankHasNoInner(x[1..], seen || x[0] != '-');
    }
  }

  lemma {:induction false} TrimLeftKeepsInner(x: string)
    ensures Inner(x, false) <==> Inner(TrimLeft(x), false)
  {
    if x != "" && x[0] == '-' {
      TrimLeftKeepsInner(x[1..]);
    }
  }

  lemma {:induction false} TrimRightConcat(u: string, w: string)
    requires HasNonDash(w)
    ensures TrimRight(u + w) == u + TrimRight(w) && TrimRight(w) != ""
    decreases |w|
  {
    var s := u + w;
    assert s[|s| - 1] == w[|w| - 1];
    if w[|w| - 1] == '-' {
      var v := w[..|w| - 1];
      assert s[..|s| - 1] == u + v;
      assert HasNonDash(v) by {
        var i :| 0 <= i < |w| && w[i] != '-';
        assert v[i] == w[i];
      }
      TrimRightConcat(u, v);
    }
  }

  lemma {:induction false} TrimRightToOne(y: string)
    requires y != "" && !HasNonDash(y[1..])
    ensures |TrimRight(y)| <= 1
    decreases |y|
  {
    if |y| > 1 {
      assert y[|y| - 1] == y[1..][|y| - 2];
      var z := y[..|y| - 1];
      assert forall i :: 0 <= i < |z[1..]| ==> z[1..][i] == y[1..][i];
      TrimRightToOne(z);
    }
  }

  lemma ShortHasNoMarker(s: string)
    requires |s| < |MARKER|
    ensures !Occurs(MARKER, s)
  {
  }

  lemma TrimmedFront(y: string)
    ensures MARKER <= TrimRight(y) <==> MARKER <= y && HasNonDash(y[|MARKER|..])
  {
    var t := TrimRight(y);
    if MARKER <= t {
      assert t[|MARKER| - 1] == '-';
      assert |t| > |MARKER| && t[|t| - 1] == y[|MARKER|..][|t| - 1 - |MARKER|];
    }
    if MARKER <= y && HasNonDash(y[|MARKER|..]) {
      TrimRightConcat(MARKER, y[|MARKER|..]);
      assert y == MARKER + y[|MARKER|..];
    }
  }

  lemma {:induction false} TrimRightKeepsInner(y: string)
    ensures Inner(y, true) <==> Occurs(MARKER, TrimRight(y))
  {
    var t := TrimRight(y);
    if y == "" {
      ShortHasNoMarker(t);
    } else if HasNonDash(y[1..]) {
      TrimRightConcat([y[0]], y[1..]);
      assert y == [y[0]] + y[1..];
      assert t[1..] == TrimRight(y[1..]);
      TrimmedFront(y);
      OccursCons(MARKER, t);
      TrimRightKeepsInner(y[1..]);
    } else {
      BlankHasNoInner(y[1..], true);
      TrimRightToOne(y);
      ShortHasNoMarker(t);
      TrimmedFront(y);
    }
  }

  /** A marker survives the trims exactly when it stands between two characters that are
      not dashes. */
  lemma TrimsKeepInner(x: string)
    ensures Occurs(MARKER, TrimRight(TrimLeft(x))) <==> Inner(x, false)
  {
    TrimLeftKeepsInner(x);
    var y := TrimLeft(x);
    TrimRightKeepsInner(y);
    if y != "" {
      MarkerFront(y);
    }
  }

  // ---- sanitising ---------------------------------------------------------

  /** Nothing but dashes and markers: the replacement turns it into dashes. */
  predicate Blank(m: string) {
    if m == "" then true
    else if MARKER <= m then Blank(m[|MARKER|..])
    else m[0] == '-' && Blank(m[1..])
  }

  /** The scan meets a marker directly followed by `stack-`, after a character that is not
      dropped or trimmed away and before another. */
  predicate KeepsMarker(m: string, seen: bool) {
    if m == "" then false
    else if MARKER <= m
    then
      || (seen && "stack-" <= m[|MARKER|..] && !Blank(m[|MARKER| + 5..]))
      || KeepsMarker(m[|MARKER|..], seen)
    else KeepsMarker(m[1..], seen || m[0] != '-')
  }

  lemma NonDashCons(s: string)
    requires s != ""
    ensures HasNonDash(s) <==> s[0] != '-' || HasNonDash(s[1..])
  {
    if HasNonDash(s[1..]) {
      var i :| 0 <= i < |s[1..]| && s[1..][i] != '-';
      assert s[i + 1] != '-';
    }
    if HasNonDash(s) && s[0] == '-' {
      var i :| 0 <= i < |s| && s[i] != '-';
      assert s[1..][i - 1] != '-';
    }
  }

  lemma {:induction false} BlankMeansDashes(m: string)
    ensures Blank(m) <==> !HasNonDash(DropMarkers(m))
  {
    if m != "" {
      DropHead(m);
      var d := DropMarkers(m);
      NonDashCons(d);
      if MARKER <= m {
        assert d[1..] == DropMarkers(m[|MARKER|..]);
        BlankMeansDashes(m[|MARKER|..]);
      } else {
        assert d[1..] == DropMarkers(m[1..]);
        BlankMeansDashes(m[1..]);
      }
    }
  }

  /** What follows the marker that the replacement of `-stack-stack-…` leaves. */
  lemma AfterMarker(m: string)
    requires MARKER <= m && "stack-" <= m[|MARKER|..]
    ensures MARKER <= DropMarkers(m)
    ensures HasNonDash(DropMarkers(m)[|MARKER|..]) <==> !Blank(m[|MARKER| + 5..])
  {
    OutputFront(m);
    var d, r := DropMarkers(m), m[|MARKER|..];
    assert d[1..] == DropMarkers(r);
    assert "stack-" == "stack" + "-";
    FrontSplits("stack", "-", r);
    WordSurvives("stack", r);
    assert r[5..] == m[|MARKER| + 5..];
    assert d[1..][5..] == DropMarkers(r[5..]);
    DropHead(r[5..]);
    NonDashCons(DropMarkers(r[5..]));
    assert d[|MARKER|..] == DropMarkers(r[5..])[1..];
    BlankMeansDashes(r[5..]);
  }

  lemma {:induction false} OutputInner(m: string, seen: bool)
    ensures Inner(DropMarkers(m), seen) <==> KeepsMarker(m, seen)
  {
    if m != "" {
      DropHead(m);
      OutputFront(m);
      var d := DropMarkers(m);
      if MARKER <= m {
        assert d[1..] == DropMarkers(m[|MARKER|..]);
        OutputInner(m[|MARKER|..], seen);
        if "stack-" <= m[|MARKER|..] {
          AfterMarker(m);
        }
      } else {
        assert d[1..] == DropMarkers(m[1..]);
        OutputInner(m[1..], seen || m[0] != '-');
      }
    }
  }

  /** The exact condition under which a sanitised name holds the marker. */
  lemma MarkerSurvivesIff(s: string)
    ensures Occurs(MARKER, Sanitise(s)) <==> KeepsMarker(MapChars(s), false)
  {
    var d := DropMarkers(MapChars(s));
    OutputInner(MapChars(s), false);
    TrimsKeepInner(d);
    var out := TrimRight(TrimLeft(d));
    if out == "" {
      ShortHasNoMarker(out);
      NoDashNoMarker("unknown");
    }
  }

  lemma NoDashNoMarker(s: string)
    requires '-' !in s
    ensures !Occurs(MARKER, s)
  {
    forall i | 0 <= i <= |s|
      ensures !(MARKER <= s[i..])
    {
      MarkerAtIsPrefix(s, i);
    }
  }

  lemma {:induction false} WithoutMarkerUnchanged(t: string)
    ensures Occurs(MARKER, t) ==> |DropMarkers(t)| < |t|
    ensures !Occurs(MARKER, t) ==> DropMarkers(t) == t
  {
    if t == "" {
      ShortHasNoMarker(t);
    } else {
      OccursCons(MARKER, t);
      if MARKER <= t {
        DropShortens(t[|MARKER|..]);
      } else {
        WithoutMarkerUnchanged(t[1..]);
      }
    }
  }

  lemma {:induction false} DropShortens(t: string)
    ensures |DropMarkers(t)| <= |t|
  {
    if t != "" {
      DropShortens(if MARKER <= t then t[|MARKER|..] else t[1..]);
    }
  }

  /** A name in the segment alphabet that neither starts nor ends with a dash is left
      alone exactly when it holds no marker. */
  lemma UnchangedIffMarkerFree(t: string)
    requires AllSegmentChars(t) && t != "" && t[0] != '-' && t[|t| - 1] != '-'
    ensures Sanitise(t) == t <==> !Occurs(MARKER, t)
  {
    assert MapChars(t) == t;
    SanitisedLength(t);
    WithoutMarkerUnchanged(t);
    if DropMarkers(t) == t {
      SanitiseBy(t, t);
    }
  }

  lemma SanitisedLength(t: string)
    requires MapChars(t) == t && t != "" && t[0] != '-'
    ensures |Sanitise(t)| <= |DropMarkers(t)|
  {
    DropHead(t);
    TrimOf(DropMarkers(t));
  }

  lemma TrimOf(d: string)
    requires d != "" && d[0] != '-'
    ensures TrimRight(TrimLeft(d)) == TrimRight(d) != "" && |TrimRight(d)| <= |d|
  {
    assert HasNonDash(d);
    TrimRightConcat("", d);
    assert "" + d == d;
  }

  /** Sanitising twice is sanitising once exactly when the first result is free of the
      marker, that is, unless the scan keeps one. */
  lemma IdempotentIff(s: string)
    ensures Sanitise(Sanitise(s)) == Sanitise(s) <==> !KeepsMarker(MapChars(s), false)
  {
    MarkerSurvivesIff(s);
    UnchangedIffMarkerFree(Sanitise(s));
  }

  lemma {:induction false} KeptMeansDouble(m: string, seen: bool)
    requires KeepsMarker(m, seen)
    ensures Occurs(DOUBLE, m)
  {
    if MARKER <= m {
      if "stack-" <= m[|MARKER|..] {
        assert DOUBLE == MARKER + "stack-";
        FrontSplits(MARKER, "stack-", m);
        OccursCons(DOUBLE, m);
      } else {
        KeptMeansDouble(m[|MARKER|..], seen);
        OccursInSuffix(DOUBLE, m, |MARKER|);
      }
    } else {
      KeptMeansDouble(m[1..], seen || m[0] != '-');
      OccursInSuffix(DOUBLE, m, 1);
    }
  }

  /** A name whose mapped form holds no `-stack-stack-` is sanitised free of the marker,
      and once and for all. */
  lemma NoDoubleMarkerIsClean(s: string)
    requires !Occurs(DOUBLE, MapChars(s))
    ensures !Occurs(MARKER, Sanitise(s)) && Sanitise(Sanitise(s)) == Sanitise(s)
  {
    if KeepsMarker(MapChars(s), false) {
      KeptMeansDouble(MapChars(s), false);
    }
    MarkerSurvivesIff(s);
    IdempotentIff(s);
  }

  lemma {:induction false} MarkerFree(s: string)
    requires |s| < |MARKER| || s[0] != '-'
    requires |s| <= |MARKER|
    ensures DropMarkers(s) == s
  {
    if s != "" {
      MarkerFree(s[1..]);
    }
  }

  lemma DropFirstMarker(rest: string)
    requires |rest| <= |MARKER| && (rest != "" ==> rest[0] != '-')
    ensures DropMarkers("a" + (MARKER + rest)) == "a" + ("-" + rest)
  {
    var s := "a" + (MARKER + rest);
    assert s[1..] == MARKER + rest && s[0] == 'a';
    assert DropMarkers(s) == ['a'] + DropMarkers(s[1..]);
    assert (MARKER + rest)[|MARKER|..] == rest;
    MarkerFree(rest);
  }

  lemma SanitiseBy(s: string, out: string)
    requires AllSegmentChars(s) && DropMarkers(s) == out
    requires out != "" && out[0] != '-' && out[|out| - 1] != '-'
    ensures Sanitise(s) == out
  {
    assert MapChars(s) == s;
    assert TrimLeft(out) == out;
    assert TrimRight(out) == out;
  }

  lemma SanitiseDropsOne(rest: string)
    requires 0 < |rest| <= |MARKER| && AllSegmentChars(rest) && rest[0] != '-' && rest[|rest| - 1] != '-'
    ensures Sanitise("a" + (MARKER + rest)) == "a" + ("-" + rest)
  {
    DropFirstMarker(rest);
    var s, out := "a" + (MARKER + rest), "a" + ("-" + rest);
    assert AllSegmentChars(s) && out[0] == 'a' && out[|out| - 1] == rest[|rest| - 1];
    SanitiseBy(s, out);
  }

  lemma DashStack()
    ensures "-" + "stack-b" == MARKER + "b"
  {
  }

  /** Sanitising does not remove every marker, and is not idempotent: `a-stack-stack-b`
      becomes `a-stack-b`, which becomes `a-b`. */
  lemma SanitiseLeavesMarker()
    ensures Sanitise("a" + (MARKER + "stack-b")) == "a" + (MARKER + "b")
    ensures Sanitise("a" + (MARKER + "b")) == "a" + ("-" + "b")
  {
    DashStack();
    SanitiseDropsOne("stack-b");
    SanitiseDropsOne("b");
  }

  // ---- a marker hidden in the node ----------------------------------------

  /** Where a node that hides a stamped marker is cut when its artifact is read back. */
  ghost predicate FirstHidden(node: string, k: nat) {
    1 <= k < |node| && StampedMarkerAt(node, k) && forall j :: 1 <= j < k ==> !StampedMarkerAt(node, j)
  }

  lemma {:induction false} FindFirstHidden(node: string, j: nat) returns (k: nat)
    requires 1 <= j < |node| && StampedMarkerAt(node, j)
    ensures FirstHidden(node, k)
    decreases j
  {
    if i :| 1 <= i < j && StampedMarkerAt(node, i) {
      k := FindFirstHidden(node, i);
    } else {
      k := j;
    }
  }

  lemma SearchStopsAtHidden(x: string, node: string, k: nat)
    requires AllSegmentChars(node) && FirstHidden(node, k) && IsAlnum(node[0])
    requires node + "-" <= x && |node| + 20 + |SUFFIX| <= |x|
    requires Digits2(x, |node| + 1) && Digits2(x, |node| + 3)
    requires x[|x| - |SUFFIX|..] == SUFFIX && '\n' !in x
    ensures ShortestNode(x, 1) == Some(k)
  {
    HiddenMarkerMatches(x, node, k);
    ShortestIsLeast(x, 1, k);
    var found := ShortestNode(x, 1).value;
    if found < k {
      MatchIsHiddenMarker(x, node, found);
    }
  }

  lemma ParsedNodeOf(name: string, x: string, k: nat)
    requires name == PREFIX + x && ShortestNode(x, 1) == Some(k)
    ensures ParseLeaf(name).Some? ==> ParseLeaf(name).value.node == x[..k]
    ensures ParseLeaf(name).Some? <==> Valid(ReadStamp(x, k + 1))
  {
    assert name[|PREFIX|..] == x;
  }

  lemma MisreadFields(n: string, ts: string, s: string, k: nat)
    requires AllSegmentChars(n) && n != "" && AllSegmentChars(s) && s != "" && IsAlnum(n[0])
    requires |ts| == 19 && StampShape(ts, 0) && FirstHidden(n, k)
    ensures var r := ParseLeaf(Render(n, ts, s));
            if Valid(ReadStamp(n + "-", k + 1)) then r.Some? && r.value.node == n[..k] else r.None?
  {
    var x := Body(n, ts, s);
    BodyReads(n, ts, s);
    MisreadWithin(n, x, k);
    ParsedNodeOf(Render(n, ts, s), x, k);
  }

  lemma MisreadWithin(n: string, x: string, k: nat)
    requires AllSegmentChars(n) && FirstHidden(n, k) && IsAlnum(n[0])
    requires n + "-" <= x && |n| + 20 + |SUFFIX| <= |x|
    requires Digits2(x, |n| + 1) && Digits2(x, |n| + 3)
    requires x[|x| - |SUFFIX|..] == SUFFIX && '\n' !in x
    ensures ShortestNode(x, 1) == Some(k) && k + 20 <= |n| + 1
    ensures ReadStamp(n + "-", k + 1) == ReadStamp(x, k + 1) && x[..k] == n[..k]
  {
    SearchStopsAtHidden(x, n, k);
    PrefixReads(n + "-", x, k + 1);
    assert x[..k] == (n + "-")[..k] == n[..k];
  }

  lemma PrefixReads(s: string, x: string, i: nat)
    requires s <= x && i + 19 <= |s|
    ensures ReadStamp(s, i) == ReadStamp(x, i)
  {
    assert forall j :: 0 <= j < |s| ==> s[j] == x[j];
  }

  lemma MisreadAt(stack: string, node: string, at: int, k: nat)
    requires Representable(at) && IsAlnum(Sanitise(node)[0]) && FirstHidden(Sanitise(node), k)
    ensures var n, r := Sanitise(node), ParseArtifact(ArtifactName(stack, node, at));
            if Valid(ReadStamp(n + "-", k + 1)) then r.Some? && r.value.node == n[..k] else r.None?
  {
    var n, s, ts := Sanitise(node), Sanitise(stack), FormatStamp(StampAt(at));
    FormatThenRead(StampAt(at));
    LeafName(n, ts, s);
    MisreadFields(n, ts, s, k);
  }

  lemma SomeFirstHidden(n: string) returns (k: nat)
    requires HidesMarker(n)
    ensures FirstHidden(n, k)
  {
    var j :| 1 <= j < |n| && StampedMarkerAt(n, j);
    k := FindFirstHidden(n, j);
  }

  /** A node that hides a stamped marker is read back cut off at the first one, or not at
      all when the digits there are no date. */
  lemma HiddenMarkerMisread(stack: string, node: string, at: int) returns (k: nat)
    requires Representable(at) && IsAlnum(Sanitise(node)[0]) && HidesMarker(Sanitise(node))
    ensures var n, r := Sanitise(node), ParseArtifact(ArtifactName(stack, node, at));
            && FirstHidden(n, k)
            && if Valid(ReadStamp(n + "-", k + 1)) then r.Some? && r.value.node == n[..k] else r.None?
  {
    k := SomeFirstHidden(Sanitise(node));
    MisreadAt(stack, node, at, k);
  }

  const DISGUISED := "a-2020-01-01T00-00-00-stack"

  lemma DisguisedHasNoMarker(i: nat)
    requires i <= |DISGUISED|
    ensures !(MARKER <= DISGUISED[i..])
  {
    MarkerAtIsPrefix(DISGUISED, i);
    assert DISGUISED[21] == '-' && forall j :: 0 <= j < 22 ==> DISGUISED[j] != 's';
  }

  lemma DisguisedIsSanitised()
    ensures Sanitise(DISGUISED) == DISGUISED
  {
    forall i | 0 <= i <= |DISGUISED|
      ensures !(MARKER <= DISGUISED[i..])
    {
      DisguisedHasNoMarker(i);
    }
    assert AllSegmentChars(DISGUISED);
    UnchangedIffMarkerFree(DISGUISED);
  }

  lemma DisguisedHides()
    ensures FirstHidden(DISGUISED, 1) && Valid(ReadStamp(DISGUISED + "-", 2)) && DISGUISED[..1] == "a"
  {
    var s := DISGUISED + "-";
    assert StampedMarkerAt(DISGUISED, 1);
    assert ReadStamp(s, 2) == Stamp(2020, 1, 1, 0, 0, 0);
  }

  /** A host name that ends in a stamp and `-stack` is printed as it is, and every one of
      its artifacts is read back as node `a`'s. */
  lemma HiddenMarkerExample(stack: string, at: int)
    requires Representable(at)
    ensures Sanitise(DISGUISED) == DISGUISED
    ensures var r := ParseArtifact(ArtifactName(stack, DISGUISED, at)); r.Some? && r.value.node == "a" != DISGUISED
  {
    DisguisedIsSanitised();
    DisguisedHides();
    MisreadAt(stack, DISGUISED, at, 1);
  }
}
