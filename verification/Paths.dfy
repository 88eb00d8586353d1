/** Member names as paths: what cleaning does to them, and that nothing is ever written
    outside the restore target. */
module Paths {
  import opened Common
  import opened Tree
  import opened Restore

  // ---- the laws of cleaning -----------------------------------------------

  lemma {:induction false} CleanAppend(rooted: bool, done: Path, a: Path, b: Path)
    ensures Clean(rooted, done, a + b) == Clean(rooted, Clean(rooted, done, a), b)
    decreases |a|
  {
    if a == [] {
      assert a + b == b;
    } else {
      assert (a + b)[0] == a[0] && (a + b)[1..] == a[1..] + b;
      CleanAppend(rooted, done, a[1..], b);
      CleanAppend(rooted, done + [a[0]], a[1..], b);
      CleanAppend(rooted, done + [".."], a[1..], b);
      if done != [] {
        CleanAppend(rooted, done[..|done| - 1], a[1..], b);
      }
    }
  }

  lemma CleanOne(rooted: bool, done: Path, x: string, b: Path)
    ensures Clean(rooted, done, [x] + b) == Clean(rooted, Clean(rooted, done, [x]), b)
  {
    CleanAppend(rooted, done, [x], b);
  }

  /** Empty segments and single dots do not matter, wherever they stand. */
  lemma CleanIgnores(rooted: bool, a: Path, x: string, b: Path)
    requires x == "" || x == "."
    ensures Clean(rooted, [], a + ([x] + b)) == Clean(rooted, [], a + b)
  {
    var d := Clean(rooted, [], a);
    CleanAppend(rooted, [], a, [x] + b);
    CleanAppend(rooted, [], a, b);
    assert ([x] + b)[1..] == b && ([x] + b)[0] == x;
  }

  /** Two dots take back the segment before them. */
  lemma CleanCancels(rooted: bool, a: Path, x: string, b: Path)
    requires x != "" && x != "." && x != ".."
    ensures Clean(rooted, [], a + ([x, ".."] + b)) == Clean(rooted, [], a + b)
  {
    var d, y := Clean(rooted, [], a), [x, ".."] + b;
    CleanAppend(rooted, [], a, y);
    CleanAppend(rooted, [], a, b);
    assert y[0] == x && y[1..] == [".."] + b;
    assert y[1..][0] == ".." && y[1..][1..] == b;
    assert (d + [x])[..|d|] == d && (d + [x])[|d|] == x;
  }

  /** At the root of a rooted name they lead nowhere; a relative name keeps them. */
  lemma CleanAtRoot(b: Path)
    ensures Clean(true, [], [".."] + b) == Clean(true, [], b)
    ensures Clean(false, [], [".."] + b) == Clean(false, [".."], b)
  {
    assert ([".."] + b)[0] == ".." && ([".."] + b)[1..] == b;
    assert [] + [".."] == [".."];
  }

  /** No empty segment, no dot, and two dots only in front of a relative path. */
  ghost predicate IsClean(rooted: bool, p: Path) {
    && (forall i :: 0 <= i < |p| ==> p[i] != "" && p[i] != ".")
    && (forall i :: 0 <= i < |p| && p[i] == ".." ==> !rooted && forall j :: 0 <= j < i ==> p[j] == "..")
  }

  lemma {:induction false} CleanIsClean(rooted: bool, done: Path, todo: Path)
    requires IsClean(rooted, done)
    ensures IsClean(rooted, Clean(rooted, done, todo))
    decreases |todo|
  {
    if todo != [] {
      if todo[0] == "" || todo[0] == "." {
        CleanIsClean(rooted, done, todo[1..]);
      } else if todo[0] == ".." {
        if done != [] && done[|done| - 1] != ".." {
          CleanIsClean(rooted, done[..|done| - 1], todo[1..]);
        } else if rooted {
          CleanIsClean(rooted, done, todo[1..]);
        } else {
          DotsInFront(done);
          CleanIsClean(rooted, done + [".."], todo[1..]);
        }
      } else {
        CleanIsClean(rooted, done + [todo[0]], todo[1..]);
      }
    }
  }

  lemma DotsInFront(done: Path)
    requires IsClean(false, done) && (done == [] || done[|done| - 1] == "..")
    ensures IsClean(false, done + [".."])
  {
  }

  /** Cleaning leaves a clean path alone. */
  lemma {:induction false} CleanIsIdempotent(rooted: bool, done: Path, todo: Path)
    requires IsClean(rooted, done + todo)
    ensures Clean(rooted, done, todo) == done + todo
    decreases |todo|
  {
    if todo == [] {
      assert done + todo == done;
    } else {
      var p := done + todo;
      assert p[|done|] == todo[0];
      assert done != [] ==> p[|done| - 1] == done[|done| - 1];
      assert done + [todo[0]] + todo[1..] == p;
      CleanIsIdempotent(rooted, done + [todo[0]], todo[1..]);
    }
  }

  // ---- the data prefix ----------------------------------------------------

  /** A clean member name below `backup/data` is mapped to what follows; any other is taken
      as it is. */
  lemma RelPathMeaning(rooted: bool, p: Path)
    requires IsClean(rooted, p)
    ensures RelPath(RawName(rooted, p)) == if |p| >= 2 && p[0] == "backup" && p[1] == "data" then p[2..] else p
  {
    CleanIsIdempotent(rooted, [], p);
    assert [] + p == p;
    if DATA <= p {
      assert p[0] == DATA[0] && p[1] == DATA[1];
    }
    if |p| >= 2 && p[0] == "backup" && p[1] == "data" {
      assert p[..2] == DATA;
    }
  }

  // ---- nothing leaves the target ------------------------------------------

  /** A path that stays below where it starts. */
  ghost predicate Inside(p: Path) {
    forall i :: 0 <= i < |p| ==> p[i] != "" && p[i] != "." && p[i] != ".."
  }

  lemma MappedInside(name: RawName)
    requires !Escapes(RelPath(name))
    ensures Inside(RelPath(name))
  {
    var c := Clean(name.rooted, [], name.segments);
    CleanIsClean(name.rooted, [], name.segments);
    if DATA <= c {
      assert c[0] == DATA[0] && c[0] != "..";
      assert forall i :: 0 <= i < |c[2..]| ==> c[2..][i] == c[i + 2];
    }
  }

  ghost predicate AllInside(t: Tree) {
    forall p :: p in t ==> Inside(p)
  }

  lemma ContainedInside(t: Tree, t': Tree, p: Path)
    requires AllInside(t) && Inside(p) && forall q :: q in t' && !Covers(q, p) ==> q in t
    ensures AllInside(t')
  {
    forall q | q in t' && Covers(q, p)
      ensures Inside(q)
    {
      assert forall i :: 0 <= i < |q| ==> q[i] == p[i];
    }
  }

  /** Entries whose paths do not leave the target, or are refused. */
  ghost predicate Tame(es: seq<Entry>) {
    forall i :: 0 <= i < |es| && !Escapes(es[i].path) ==> Inside(es[i].path)
  }

  lemma EntryStaysInside(t: Tree, e: Entry)
    requires WellFormed(t) && AllInside(t) && (!Escapes(e.path) ==> Inside(e.path))
    ensures AllInside(ApplyEntry(t, e).tree)
  {
    if !Escapes(e.path) {
      EntryEffect(t, e);
      ContainedInside(t, ApplyEntry(t, e).tree, e.path);
    }
  }

  lemma {:induction false} EntriesStayInside(t: Tree, es: seq<Entry>)
    requires WellFormed(t) && AllInside(t) && Tame(es)
    ensures AllInside(ApplyAll(t, es).tree)
  {
    if es != [] {
      var init := es[..|es| - 1];
      EntriesStayInside(t, init);
      ExtractionIsAdditive(t, init);
      if ApplyAll(t, init).Ok? {
        EntryStaysInside(ApplyAll(t, init).tree, es[|es| - 1]);
      }
    }
  }

  lemma SelectedTame(raws: seq<RawEntry>, f: Filter)
    ensures Tame(Selected(raws, f))
  {
    var es := Selected(raws, f);
    forall i | 0 <= i < |es| && !Escapes(es[i].path)
      ensures Inside(es[i].path)
    {
      SelectedMeaning(raws, f, es[i]);
      var r :| r in raws && EntryOf(r) == es[i];
      MappedInside(r.name);
    }
  }

  lemma ArchiveStaysInside(t: Tree, a: Archive, f: Filter)
    requires WellFormed(t) && AllInside(t)
    ensures AllInside(ExtractArchive(t, a, f).tree)
  {
    var es := Selected(a.raws, f);
    SelectedTame(a.raws, f);
    if Breaks(a, f) {
      var at := a.fault.value.at;
      EntriesStayInside(t, es[..at]);
      ExtractionIsAdditive(t, es[..at]);
      var m := ApplyAll(t, es[..at]);
      if m.Ok? && !Escapes(es[at].path) {
        BreakIsContained(m.tree, es[at], a.fault.value.partial);
        ContainedInside(m.tree, Interrupted(m.tree, es[at], a.fault.value.partial), es[at].path);
      }
    } else {
      EntriesStayInside(t, es);
    }
  }

  lemma {:induction false} RunStaysInside(t: Tree, archives: seq<Archive>, f: Filter)
    requires WellFormed(t) && AllInside(t)
    ensures AllInside(ExtractRun(t, archives, f).tree)
  {
    if archives != [] {
      var init, a := archives[..|archives| - 1], archives[|archives| - 1];
      RunStaysInside(t, init, f);
      StoppedRestoreRemovesNothing(t, init, f);
      if ExtractRun(t, init, f).Ok? {
        ArchiveStaysInside(ExtractRun(t, init, f).tree, a, f);
      }
    }
  }

  /** Whatever the archives name, and however the restore ends, nothing is ever written
      outside the target: no path climbs out of it. */
  lemma NothingLeavesTarget(t: Tree, archives: seq<Archive>, f: Filter, depth: nat, stuck: set<Path>)
    requires WellFormed(t) && AllInside(t)
    ensures AllInside(RestoreRun(t, archives, f, depth, stuck).tree)
  {
    RunStaysInside(t, archives, f);
  }

  /** An entry that climbs out stops the restore. */
  lemma EscapeStops(t: Tree, es: seq<Entry>, i: nat)
    requires i < |es| && Escapes(es[i].path)
    ensures ApplyAll(t, es).Fail?
  {
    ApplyAppend(t, es[..i + 1], es[i + 1..]);
    assert es == es[..i + 1] + es[i + 1..];
    assert es[..i + 1][..i] == es[..i];
  }
}
