/** Which directories of the volume root are backed up: derived from what is deployed or
    mounted, and reconciled with what changed since. */
module Plan {
  import opened Common

  const LOST_FOUND := "lost+found"

  /** A directory listing: names are unique. */
  ghost predicate Listing(entries: seq<DirEntry>) {
    forall i, j :: 0 <= i < j < |entries| ==> entries[i].name != entries[j].name
  }

  /** The stack directories of the volume root. */
  ghost function StackDirs(entries: seq<DirEntry>): set<string> {
    set e | e in entries && e.isDir && e.name != LOST_FOUND :: e.name
  }

  // ---- the order of names -------------------------------------------------

  /** Go's order on strings. */
  predicate Le(a: string, b: string) {
    a == "" || (b != "" && (a[0] < b[0] || (a[0] == b[0] && Le(a[1..], b[1..]))))
  }

  lemma {:induction false} LeIsTotal(a: string, b: string)
    ensures Le(a, b) || Le(b, a)
    ensures Le(a, b) && Le(b, a) ==> a == b
  {
    if a != "" && b != "" && a[0] == b[0] {
      LeIsTotal(a[1..], b[1..]);
      assert a == [a[0]] + a[1..] && b == [b[0]] + b[1..];
    }
  }

  /** `a` comes no later than `b` exactly when it is a prefix of `b` or has the smaller
      character where they first differ. */
  lemma {:induction false} LeMeaning(a: string, b: string)
    ensures Le(a, b) <==> a <= b || exists k :: 0 <= k < |a| && k < |b| && a[..k] == b[..k] && a[k] < b[k]
  {
    if a != "" && b != "" && a[0] == b[0] {
      var x, y := a[1..], b[1..];
      LeMeaning(x, y);
      assert a == [a[0]] + x && b == [b[0]] + y;
      if k :| 0 <= k < |x| && k < |y| && x[..k] == y[..k] && x[k] < y[k] {
        assert a[..k + 1] == [a[0]] + x[..k] && b[..k + 1] == [b[0]] + y[..k];
        assert a[k + 1] < b[k + 1];
      }
      if k :| 0 <= k < |a| && k < |b| && a[..k] == b[..k] && a[k] < b[k] {
        assert x[..k - 1] == a[..k][1..] && y[..k - 1] == b[..k][1..];
        assert x[k - 1] < y[k - 1];
      }
      assert a <= b <==> x <= y;
    } else if a != "" && b != "" {
      assert forall k :: 0 < k <= |a| && k <= |b| ==> a[..k][0] == a[0] && b[..k][0] == b[0];
      assert a[0] < b[0] ==> a[..0] == b[..0];
    }
  }

  lemma {:induction false} LeIsTransitive(a: string, b: string, c: string)
    requires Le(a, b) && Le(b, c)
    ensures Le(a, c)
  {
    if a != "" && a[0] == b[0] == c[0] {
      LeIsTransitive(a[1..], b[1..], c[1..]);
    }
  }

  ghost predicate Sorted(s: seq<string>) {
    forall i, j :: 0 <= i < j < |s| ==> Le(s[i], s[j])
  }

  function InsertName(n: string, s: seq<string>): (r: seq<string>)
    ensures multiset(r) == multiset(s) + multiset{n}
  {
    if s == [] || Le(n, s[0]) then [n] + s
    else
      assert s == [s[0]] + s[1..];
      [s[0]] + InsertName(n, s[1..])
  }

  /** `sort.Strings`. */
  function SortNames(s: seq<string>): (r: seq<string>)
    ensures multiset(r) == multiset(s)
  {
    if s == [] then []
    else
      assert s == [s[0]] + s[1..];
      InsertName(s[0], SortNames(s[1..]))
  }

  lemma {:induction false} InsertSorts(n: string, s: seq<string>)
    requires Sorted(s)
    ensures Sorted(InsertName(n, s))
  {
    if s != [] && Le(n, s[0]) {
      forall j | 0 <= j < |s|
        ensures Le(n, s[j])
      {
        if j > 0 {
          LeIsTransitive(n, s[0], s[j]);
        }
      }
    } else if s != [] {
      InsertSorts(n, s[1..]);
      LeIsTotal(n, s[0]);
      var tail := InsertName(n, s[1..]);
      forall k | 0 <= k < |tail|
        ensures Le(s[0], tail[k])
      {
        assert tail[k] in multiset(tail);
      }
    }
  }

  lemma SortSorts(s: seq<string>)
    ensures Sorted(SortNames(s)) && Elements(SortNames(s)) == Elements(s)
    ensures NoRepeats(s) ==> NoRepeats(SortNames(s))
  {
    SortOrders(s);
    var r := SortNames(s);
    forall n
      ensures n in r <==> n in s
    {
      assert n in multiset(r) <==> n in multiset(s);
    }
    if NoRepeats(s) {
      CountsOnce(s, r);
    }
  }

  lemma {:induction false} SortOrders(s: seq<string>)
    ensures Sorted(SortNames(s))
  {
    if s != [] {
      SortOrders(s[1..]);
      InsertSorts(s[0], SortNames(s[1..]));
    }
  }

  lemma CountsOnce(s: seq<string>, r: seq<string>)
    requires NoRepeats(s) && multiset(r) == multiset(s)
    ensures NoRepeats(r)
  {
    forall i, j | 0 <= i < j < |r|
      ensures r[i] != r[j]
    {
      AtMostOnce(s, r[j]);
      assert r == r[..i] + [r[i]] + r[i + 1..];
      assert r[j] == r[i + 1..][j - i - 1];
      assert r[j] in r[i + 1..];
      assert multiset(r) == multiset(r[..i]) + multiset{r[i]} + multiset(r[i + 1..]);
    }
  }

  lemma {:induction false} AtMostOnce(s: seq<string>, n: string)
    requires NoRepeats(s)
    ensures multiset(s)[n] <= 1
  {
    if s != [] {
      AtMostOnce(s[1..], n);
      assert s == [s[0]] + s[1..];
      if s[0] == n {
        assert n !in s[1..];
      }
    }
  }

  /** The sorted list of a set of names is unique. */
  lemma {:induction false} SortedIsUnique(s: seq<string>, t: seq<string>)
    requires Sorted(s) && Sorted(t) && NoRepeats(s) && NoRepeats(t) && Elements(s) == Elements(t)
    ensures s == t
  {
    EmptyIffNone(s);
    EmptyIffNone(t);
    if s != [] {
      SameFirst(s, t);
      TailElements(s);
      TailElements(t);
      SortedIsUnique(s[1..], t[1..]);
      assert s == [s[0]] + s[1..] && t == [t[0]] + t[1..];
    }
  }

  lemma EmptyIffNone(s: seq<string>)
    ensures s == [] <==> Elements(s) == {}
  {
    if s != [] {
      assert s[0] in Elements(s);
    }
  }

  lemma SameFirst(s: seq<string>, t: seq<string>)
    requires Sorted(s) && Sorted(t) && Elements(s) == Elements(t) && s != [] && t != []
    ensures s[0] == t[0]
  {
    assert s[0] in Elements(t) && t[0] in Elements(s);
    LeIsTotal(s[0], t[0]);
  }

  lemma TailElements(s: seq<string>)
    requires s != [] && NoRepeats(s)
    ensures Elements(s[1..]) == Elements(s) - {s[0]}
  {
    assert s == [s[0]] + s[1..];
    forall n
      ensures n in s[1..] <==> n in s && n != s[0]
    {
    }
  }

  // ---- directories --------------------------------------------------------

  /** The stack directories in listing order, names in `known` left out. */
  ghost function DirNames(entries: seq<DirEntry>, known: set<string>): seq<string> {
    if entries == [] then []
    else
      var init, e := DirNames(entries[..|entries| - 1], known), entries[|entries| - 1];
      if e.isDir && e.name != "lost+found" && e.name !in known then init + [e.name] else init
  }

  lemma {:induction false} DirNamesMeaning(entries: seq<DirEntry>, known: set<string>)
    requires Listing(entries)
    ensures var out := DirNames(entries, known);
            && NoRepeats(out) && Elements(out) == StackDirs(entries) - known
            && forall n :: n in out <==> n != "lost+found" && n !in known && DirEntry(n, true) in entries
  {
    if entries != [] {
      var init, e := entries[..|entries| - 1], entries[|entries| - 1];
      DirNamesMeaning(init, known);
      assert forall d :: d in entries <==> d in init || d == e;
      assert DirEntry(e.name, true) !in init;
      AppendOne(DirNames(init, known), e.name);
      assert StackDirs(entries) == StackDirs(init) + if e.isDir && e.name != LOST_FOUND then {e.name} else {};
    }
  }

  /** `PlanFromDisk`, and the scan of `OrphanDirs` and `UnplannedDirsFor`. */
  method ListDirs(entries: seq<DirEntry>, known: set<string>) returns (out: seq<string>)
    requires Listing(entries)
    ensures out == DirNames(entries, known)
    ensures NoRepeats(out) && Elements(out) == StackDirs(entries) - known
    ensures forall n :: n in out <==> n != "lost+found" && n !in known && DirEntry(n, true) in entries
  {
    out := [];
    for i := 0 to |entries|
      invariant out == DirNames(entries[..i], known)
    {
      var e := entries[i];
      assert entries[..i + 1][..i] == entries[..i];
      if e.isDir && e.name != LOST_FOUND && e.name !in known {
        out := out + [e.name];
      }
    }
    assert entries[..|entries|] == entries;
    DirNamesMeaning(entries, known);
  }

  function Filter(s: seq<string>, live: set<string>, keep: bool): seq<string> {
    if s == [] then []
    else
      var init, last := Filter(s[..|s| - 1], live, keep), s[|s| - 1];
      if (last in live) == keep then init + [last] else init
  }

  /** The partition of `plan.Stacks` in place: live stacks are written over the front of the
      same array that is being read, the rest become orphans. Nothing is overwritten before
      it is read. */
  method PartitionInPlace(stacks: array<string>, live: set<string>) returns (kept: nat, orphans: seq<string>)
    modifies stacks
    ensures kept <= stacks.Length
    ensures stacks[..kept] == Filter(old(stacks[..]), live, true)
    ensures orphans == Filter(old(stacks[..]), live, false)
  {
    kept, orphans := 0, [];
    ghost var was := stacks[..];
    for i := 0 to stacks.Length
      invariant kept <= i
      invariant forall j :: i <= j < stacks.Length ==> stacks[j] == was[j]
      invariant stacks[..kept] == Filter(was[..i], live, true)
      invariant orphans == Filter(was[..i], live, false)
    {
      FilterOneMore(was, i, live);
      var s := stacks[i];
      ghost var front := stacks[..kept];
      if s in live {
        stacks[kept] := s;
        kept := kept + 1;
        assert stacks[..kept] == front + [s];
      } else {
        orphans := orphans + [s];
      }
    }
    assert was[..|was|] == was;
  }

  lemma FilterOneMore(s: seq<string>, i: nat, live: set<string>)
    requires i < |s|
    ensures Filter(s[..i + 1], live, true) == Filter(s[..i], live, true) + if s[i] in live then [s[i]] else []
    ensures Filter(s[..i + 1], live, false) == Filter(s[..i], live, false) + if s[i] in live then [] else [s[i]]
  {
    assert s[..i + 1][..i] == s[..i];
  }

  lemma {:induction false} FilterSplits(s: seq<string>, live: set<string>)
    requires NoRepeats(s)
    ensures NoRepeats(Filter(s, live, true)) && NoRepeats(Filter(s, live, false))
    ensures Elements(Filter(s, live, true)) == Elements(s) * live
    ensures Elements(Filter(s, live, false)) == Elements(s) - live
    ensures |Filter(s, live, true)| + |Filter(s, live, false)| == |s|
  {
    if s != [] {
      var init, last := s[..|s| - 1], s[|s| - 1];
      FilterSplits(init, live);
      assert Elements(s) == Elements(init) + {last};
      AppendOne(Filter(init, live, true), last);
      AppendOne(Filter(init, live, false), last);
      assert last !in Elements(init);
      assert forall k :: last !in Elements(Filter(init, live, k));
    }
  }

  /** `OrphanDirs` and `UnplannedDirsFor`: the stack directories outside `known`, sorted. */
  method OrphanDirs(entries: seq<DirEntry>, known: set<string>) returns (out: seq<string>)
    requires Listing(entries)
    ensures Sorted(out) && NoRepeats(out) && Elements(out) == StackDirs(entries) - known
  {
    var dirs := ListDirs(entries, known);
    out := SortNames(dirs);
    SortSorts(dirs);
  }

  /** The plan a derivation yields. */
  datatype Plan = Plan(stacks: seq<string>, orphans: seq<string>, generatedAt: int)

  /** `PlanFromStacks` and the end of `PlanFromMounts`: the directories are split into
      stacks and orphans with no loss, no overlap and no repetition. */
  method Derive(entries: seq<DirEntry>, live: set<string>, generatedAt: int) returns (plan: Plan)
    requires Listing(entries)
    ensures NoRepeats(plan.stacks) && NoRepeats(plan.orphans) && Sorted(plan.orphans)
    ensures plan.stacks == Filter(DirNames(entries, {}), live, true)
    ensures Elements(plan.stacks) == StackDirs(entries) * live
    ensures Elements(plan.orphans) == StackDirs(entries) - live
    ensures plan.generatedAt == generatedAt
  {
    var dirs := ListDirs(entries, {});
    var a := new string[|dirs|](i requires 0 <= i < |dirs| => dirs[i]);
    assert a[..] == dirs;
    var kept, orphans := PartitionInPlace(a, live);
    FilterSplits(dirs, live);
    SortSorts(orphans);
    plan := Plan(a[..kept], SortNames(orphans), generatedAt);
  }

  // ---- mounts -------------------------------------------------------------

  /** A bind mount's host path, as segments; empty when the mount has no source. */
  type HostPath = seq<string>

  /** A segment that `strings.HasPrefix(rel, "..")` takes for a path outside the root. */
  predicate LooksOutside(s: string) { |s| >= 2 && s[0] == '.' && s[1] == '.' }

  /** The mount lies below the top-level directory `top` of the volume root. */
  predicate MountsBelow(root: HostPath, m: HostPath, top: string) {
    |root| < |m| && root <= m && m[|root|] == top && !LooksOutside(top)
  }

  /** Which top-level directories the containers of this node mount. */
  method MountedDirs(root: HostPath, mounts: seq<HostPath>) returns (mounted: set<string>)
    ensures forall t :: t in mounted <==> exists m :: m in mounts && MountsBelow(root, m, t)
    ensures forall t :: t in mounted <==>
                          exists m :: m in mounts && |root| < |m| && root <= m && m[|root|] == t && !(".." <= t)
  {
    mounted := {};
    for i := 0 to |mounts|
      invariant forall t :: t in mounted <==> exists j :: 0 <= j < i && MountsBelow(root, mounts[j], t)
    {
      var m := mounts[i];
      if |root| < |m| && root <= m && !LooksOutside(m[|root|]) {
        mounted := mounted + {m[|root|]};
        assert MountsBelow(root, mounts[i], m[|root|]);
      }
    }
    forall t, m
      ensures MountsBelow(root, m, t) <==> |root| < |m| && root <= m && m[|root|] == t && !(".." <= t)
    {
      TwoDots(t);
    }
  }

  lemma TwoDots(t: string)
    ensures LooksOutside(t) <==> ".." <= t
  {
    if LooksOutside(t) {
      assert t[..2] == "..";
    }
  }

  const WINDOW := 26 * 3600

  /** `PlanFromMounts`: a directory is live when a container mounts it, when it was archived
      recently, or when something below it changed within the window. No directory for
      which one of these holds becomes an orphan. */
  method PlanFromMounts(entries: seq<DirEntry>, root: HostPath, mounts: seq<HostPath>, recent: set<string>,
                        mtime: map<string, int>, now: int) returns (plan: Plan)
    requires Listing(entries) && StackDirs(entries) <= mtime.Keys
    ensures NoRepeats(plan.stacks) && NoRepeats(plan.orphans) && Sorted(plan.orphans)
    ensures Elements(plan.stacks) + Elements(plan.orphans) == StackDirs(entries)
    ensures Elements(plan.stacks) !! Elements(plan.orphans)
    ensures forall d :: d in StackDirs(entries) ==>
                          (d in Elements(plan.stacks) <==>
                             || (exists m :: m in mounts && MountsBelow(root, m, d))
                             || d in recent
                             || mtime[d] >= now - 26 * 60 * 60)
    ensures plan.generatedAt == now
  {
    var mounted := MountedDirs(root, mounts);
    var live := mounted + recent + set d | d in mtime && mtime[d] >= now - WINDOW;
    plan := Derive(entries, live, now);
  }

  // ---- orphan adoption ----------------------------------------------------

  /** Changed after a dated plan was generated. */
  predicate Active(plan: Plan, mtime: map<string, int>, d: string) {
    plan.generatedAt > 0 && d in mtime && mtime[d] > plan.generatedAt
  }

  /** The directories a run takes in beside its plan. */
  ghost function Adopted(plan: Plan, entries: seq<DirEntry>, mtime: map<string, int>,
                         includeOrphans: bool): set<string> {
    set d | && d in StackDirs(entries) && d !in plan.stacks
            && (includeOrphans || (plan.generatedAt > 0 && d in mtime && mtime[d] > plan.generatedAt))
  }

  /** `applyOrphanPolicy`: every directory the plan misses that changed since, or every one
      when asked for, is planned once; the rest stays out, and what was planned stays. The
      plan is sorted if something was taken in, and otherwise not touched. */
  method AdoptOrphans(plan: Plan, entries: seq<DirEntry>, mtime: map<string, int>, includeOrphans: bool)
    returns (stacks: seq<string>)
    requires Listing(entries) && NoRepeats(plan.stacks)
    ensures NoRepeats(stacks)
    ensures Elements(stacks) == Elements(plan.stacks) + Adopted(plan, entries, mtime, includeOrphans)
    ensures if Adopted(plan, entries, mtime, includeOrphans) == {} then stacks == plan.stacks else Sorted(stacks)
  {
    var orphans := OrphanDirs(entries, set n | n in plan.stacks);
    var adopted := [];
    for i := 0 to |orphans|
      invariant NoRepeats(adopted)
      invariant Elements(adopted) == set d | d in orphans[..i] && (includeOrphans || Active(plan, mtime, d))
    {
      var d := orphans[i];
      TakeOneMore(orphans, i);
      assert d !in orphans[..i];
      if includeOrphans || Active(plan, mtime, d) {
        assert d in Elements(adopted) <==> d in adopted;
        AppendOne(adopted, d);
        adopted := adopted + [d];
      }
    }
    assert orphans[..|orphans|] == orphans;
    AdoptedMeaning(plan, entries, mtime, includeOrphans, orphans, adopted);
    if adopted == [] {
      return plan.stacks;
    }
    AppendAll(plan.stacks, adopted);
    SortSorts(plan.stacks + adopted);
    stacks := SortNames(plan.stacks + adopted);
  }

  lemma AdoptedMeaning(plan: Plan, entries: seq<DirEntry>, mtime: map<string, int>, includeOrphans: bool,
                       orphans: seq<string>, adopted: seq<string>)
    requires Elements(orphans) == StackDirs(entries) - set n | n in plan.stacks
    requires Elements(adopted) == set d | d in orphans && (includeOrphans || Active(plan, mtime, d))
    ensures Elements(adopted) == Adopted(plan, entries, mtime, includeOrphans)
    ensures adopted == [] <==> Adopted(plan, entries, mtime, includeOrphans) == {}
  {
    assert forall d :: d in orphans <==> d in Elements(orphans);
    EmptyIffNone(adopted);
  }

  lemma AppendAll(s: seq<string>, t: seq<string>)
    requires NoRepeats(s) && NoRepeats(t) && Elements(s) !! Elements(t)
    ensures NoRepeats(s + t) && Elements(s + t) == Elements(s) + Elements(t)
  {
    ElementsAppend(s, t);
    forall i, j | 0 <= i < j < |s + t|
      ensures (s + t)[i] != (s + t)[j]
    {
      if i < |s| <= j {
        assert s[i] in Elements(s) && t[j - |s|] in Elements(t);
      }
    }
  }

  /** No live directory is silently dropped: after adoption the directories reported as
      unplanned are exactly the stack directories the plan did not cover that have not
      changed since it was generated. */
  method UnplannedAfterAdoption(plan: Plan, entries: seq<DirEntry>, mtime: map<string, int>, includeOrphans: bool)
    returns (stacks: seq<string>, unplanned: seq<string>)
    requires Listing(entries) && NoRepeats(plan.stacks)
    ensures NoRepeats(stacks) && NoRepeats(unplanned) && Sorted(unplanned) && Elements(stacks) !! Elements(unplanned)
    ensures forall d :: d in StackDirs(entries) && Active(plan, mtime, d) ==> d in stacks && d !in unplanned
    ensures Elements(unplanned) ==
            set d | d in StackDirs(entries) && d !in plan.stacks && !includeOrphans && !Active(plan, mtime, d)
  {
    stacks := AdoptOrphans(plan, entries, mtime, includeOrphans);
    unplanned := OrphanDirs(entries, set n | n in stacks);
    assert forall d :: d in stacks <==> d in Elements(stacks);
    assert forall d :: d in unplanned <==> d in Elements(unplanned);
    assert forall d :: d in plan.stacks <==> d in Elements(plan.stacks);
  }
}
