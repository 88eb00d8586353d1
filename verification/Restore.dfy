/** Restoring a run: extract every archive, then remove what the snapshot did not hold. */
module Restore {
  import opened Common
  import opened Tree

  // ---- archive entries ----------------------------------------------------

  datatype Kind = KDir | KFile(content: string) | KLink(target: string) | KOther

  /** A member name split at slashes, as the archive spells it. */
  datatype RawName = RawName(rooted: bool, segments: seq<string>)

  datatype RawEntry = RawEntry(name: RawName, kind: Kind)

  /** `filepath.Clean`, segment by segment. */
  function Clean(rooted: bool, done: Path, todo: seq<string>): Path
    decreases |todo|
  {
    if todo == [] then done
    else if todo[0] == "" || todo[0] == "." then Clean(rooted, done, todo[1..])
    else if todo[0] == ".." then
      if done != [] && done[|done| - 1] != ".." then Clean(rooted, done[..|done| - 1], todo[1..])
      else if rooted then Clean(rooted, done, todo[1..])
      else Clean(rooted, done + [".."], todo[1..])
    else Clean(rooted, done + [todo[0]], todo[1..])
  }

  const DATA: Path := ["backup", "data"]

  /** `archiveRelPath`: the baked-in prefix is stripped once; the empty path is the target. */
  function RelPath(name: RawName): Path {
    var clean := Clean(name.rooted, [], name.segments);
    if DATA <= clean then clean[|DATA|..] else clean
  }

  /** An entry mapped to the restore target. */
  datatype Entry = Entry(path: Path, kind: Kind)

  predicate Escapes(p: Path) { p != [] && p[0] == ".." }

  // ---- scope --------------------------------------------------------------

  /** What a restore asks for: everything, one volume of the run's own stack, or a volume
      name matched as path segments at any depth of a whole-disk run. */
  datatype Filter = Everything | Anchored(root: Path) | AnyDepth(volume: Path)

  /** A volume is asked for: an empty name asks for none. */
  predicate Named(volume: Option<Path>) { volume.Some? && volume.value != [] }

  /** A run without a stack name, or with an empty one, is a whole-disk run. */
  function FilterFor(stack: Option<string>, volume: Option<Path>): Filter {
    if !Named(volume) then Everything
    else if stack.Some? && stack.value != "" then Anchored([stack.value] + volume.value)
    else AnyDepth(volume.value)
  }

  predicate OccursAt(v: Path, p: Path, i: nat) { i + |v| <= |p| && p[i..i + |v|] == v }

  predicate Includes(f: Filter, p: Path) {
    match f
    case Everything => true
    case Anchored(root) => Covers(root, p)
    case AnyDepth(v) => exists i :: 0 <= i <= |p| && OccursAt(v, p, i)
  }

  /** A path as the program spells it. */
  function Join(p: Path): string {
    if p == [] then "" else if |p| == 1 then p[0] else p[0] + "/" + Join(p[1..])
  }

  predicate Segments(p: Path) { forall i :: 0 <= i < |p| ==> '/' !in p[i] }

  lemma SlashEndsSegment(a: string, x: string, b: string, y: string)
    requires '/' !in a && '/' !in b && a + "/" + x <= b + "/" + y
    ensures a == b && x <= y
  {
    var l, r := a + "/" + x, b + "/" + y;
    assert forall i :: 0 <= i < |l| ==> l[i] == r[i];
    assert forall i :: 0 <= i < |a| ==> l[i] == a[i] && l[i] != '/';
    assert forall i :: 0 <= i < |b| ==> r[i] == b[i] && r[i] != '/';
    assert l[|a|] == '/' && r[|b|] == '/';
    assert |a| == |b|;
    assert a == l[..|a|] == r[..|b|] == b;
    assert x == l[|a| + 1..] && y == r[|b| + 1..];
    assert forall i :: 0 <= i < |x| ==> x[i] == l[|a| + 1 + i] == y[i];
  }

  /** The program's test on strings, equal or a prefix ending at a slash, is the test on
      segments. */
  lemma AnchorTestOnStrings(root: Path, p: Path)
    requires root != [] && p != [] && Segments(root) && Segments(p)
    ensures Join(p) == Join(root) || Join(root) + "/" <= Join(p) <==> Covers(root, p)
  {
    StringTestGivesPrefix(root, p);
    if Covers(root, p) {
      PrefixGivesStringTest(root, p);
    }
  }

  lemma {:induction false} PrefixGivesStringTest(root: Path, p: Path)
    requires root != [] && Covers(root, p)
    ensures Join(p) == Join(root) || Join(root) + "/" <= Join(p)
    decreases |root|
  {
    assert p[0] == root[0];
    if |root| > 1 {
      assert root[1..] <= p[1..];
      PrefixGivesStringTest(root[1..], p[1..]);
      var h, r, q := p[0] + "/", Join(root[1..]), Join(p[1..]);
      if r + "/" <= q {
        assert q == (r + "/") + q[|r| + 1..];
        assert Join(p) == Join(root) + "/" + q[|r| + 1..];
      }
    } else if |p| > 1 {
      assert Join(p) == Join(root) + "/" + Join(p[1..]);
    }
  }

  lemma {:induction false} StringTestGivesPrefix(root: Path, p: Path)
    requires root != [] && p != [] && Segments(root) && Segments(p)
    ensures Join(p) == Join(root) || Join(root) + "/" <= Join(p) ==> Covers(root, p)
    decreases |root|
  {
    if Join(p) == Join(root) || Join(root) + "/" <= Join(p) {
      HeadsAgree(root, p);
      if |root| > 1 {
        TailTest(root[1..], p[1..]);
        StringTestGivesPrefix(root[1..], p[1..]);
        assert root == [root[0]] + root[1..] && p == [p[0]] + p[1..];
      }
    }
  }

  lemma HeadsAgree(root: Path, p: Path)
    requires root != [] && p != [] && '/' !in root[0] && '/' !in p[0]
    requires Join(root) + "/" <= Join(p) + "/"
    ensures root[0] == p[0]
    ensures |root| > 1 ==> |p| > 1 && Join(root[1..]) + "/" <= Join(p[1..]) + "/"
  {
    HeadAndTail(root);
    HeadAndTail(p);
    SlashEndsSegment(root[0], Rest(root), p[0], Rest(p));
  }

  /** What follows the first segment and its slash, with a slash at the end. */
  function Rest(p: Path): string
    requires p != []
  {
    if |p| == 1 then "" else Join(p[1..]) + "/"
  }

  lemma HeadAndTail(p: Path)
    requires p != []
    ensures Join(p) + "/" == p[0] + "/" + Rest(p)
  {
    if |p| > 1 {
      assert Join(p) + "/" == p[0] + "/" + (Join(p[1..]) + "/");
    }
  }

  lemma TailTest(root: Path, p: Path)
    requires Join(root) + "/" <= Join(p) + "/"
    ensures Join(p) == Join(root) || Join(root) + "/" <= Join(p)
  {
    var r, q := Join(root), Join(p);
    if |r| == |q| {
      assert r == (r + "/")[..|r|] == (q + "/")[..|q|] == q;
    } else {
      assert r + "/" == (q + "/")[..|r| + 1] == q[..|r| + 1];
    }
  }

  /** A named volume confines the prune to the volume's own directory. */
  function DepthFor(volume: Option<Path>): nat {
    if Named(volume) then 2 else 1
  }

  /** The entries a restore acts on, in archive order. */
  function Selected(raws: seq<RawEntry>, f: Filter): seq<Entry> {
    if raws == [] then []
    else
      var init, last := Selected(raws[..|raws| - 1], f), raws[|raws| - 1];
      if Includes(f, RelPath(last.name)) then init + [Entry(RelPath(last.name), last.kind)] else init
  }

  /** A raw entry as the restore sees it. */
  function EntryOf(r: RawEntry): Entry { Entry(RelPath(r.name), r.kind) }

  ghost predicate Holds(raws: seq<RawEntry>, e: Entry) {
    exists r :: r in raws && EntryOf(r) == e
  }

  /** The selection is exactly the entries the filter includes. */
  lemma {:induction false} SelectedMeaning(raws: seq<RawEntry>, f: Filter, e: Entry)
    ensures e in Selected(raws, f) <==> Includes(f, e.path) && Holds(raws, e)
  {
    if raws != [] {
      var init, last := raws[..|raws| - 1], raws[|raws| - 1];
      SelectedMeaning(init, f, e);
      assert forall r :: r in raws <==> r in init || r == last;
      assert e in Selected(raws, f) <==>
             e in Selected(init, f) || (Includes(f, EntryOf(last).path) && e == EntryOf(last));
    }
  }

  // ---- what the snapshot holds --------------------------------------------

  /** `collectArchivedPaths`: every selected path and every ancestor, the target excepted. */
  function Keep(es: seq<Entry>): set<Path> {
    if es == [] then {}
    else Keep(es[..|es| - 1]) + (Prefixes(es[|es| - 1].path) - {[]})
  }

  lemma {:induction false} KeepMeaning(es: seq<Entry>, p: Path)
    ensures p in Keep(es) <==> p != [] && exists i :: 0 <= i < |es| && Covers(p, es[i].path)
  {
    if es != [] {
      KeepMeaning(es[..|es| - 1], p);
      if p in Keep(es[..|es| - 1]) {
        var i :| 0 <= i < |es| - 1 && Covers(p, es[..|es| - 1][i].path);
        assert Covers(p, es[i].path);
      }
      if p != [] && exists i :: 0 <= i < |es| && Covers(p, es[i].path) {
        var i :| 0 <= i < |es| && Covers(p, es[i].path);
        if i < |es| - 1 {
          assert Covers(p, es[..|es| - 1][i].path);
        }
      }
    }
  }

  /** Every ancestor of a kept path is kept. */
  ghost predicate PrefixClosed(keep: set<Path>) {
    [] !in keep && forall p, q :: p in keep && Covers(q, p) && q != [] ==> q in keep
  }

  lemma {:induction false} KeepIsPrefixClosed(es: seq<Entry>)
    ensures PrefixClosed(Keep(es))
  {
    if es != [] {
      KeepIsPrefixClosed(es[..|es| - 1]);
    }
  }

  function NodeOf(k: Kind): Node
    requires !k.KOther?
  {
    match k
    case KDir => Dir
    case KFile(c) => File(c)
    case KLink(l) => Link(l)
  }

  /** Directories, regular files and symlinks: what the agent archives. */
  ghost predicate Plain(es: seq<Entry>) {
    forall i :: 0 <= i < |es| ==> !es[i].kind.KOther?
  }

  /** The snapshot's view of a kept path: its last entry, or a directory that the
      snapshot names only through something below it. */
  ghost function Expected(es: seq<Entry>, p: Path): Node
    requires Plain(es)
  {
    if es == [] then Dir
    else if es[|es| - 1].path == p then NodeOf(es[|es| - 1].kind)
    else Expected(es[..|es| - 1], p)
  }

  lemma {:induction false} UnnamedIsDir(es: seq<Entry>, p: Path)
    requires Plain(es) && p != [] && p !in Keep(es)
    ensures Expected(es, p) == Dir
  {
    if es != [] {
      assert p !in Prefixes(es[|es| - 1].path);
      UnnamedIsDir(es[..|es| - 1], p);
    }
  }

  // ---- extraction ---------------------------------------------------------

  function ApplyEntry(t: Tree, e: Entry): Outcome {
    if Escapes(e.path) then Fail(t)
    else match e.kind
      case KDir => MkdirAll(t, e.path)
      case KFile(c) => WriteFile(t, e.path, c)
      case KLink(l) => MakeLink(t, e.path, l)
      case KOther => Ok(t)
  }

  function ApplyAll(t: Tree, es: seq<Entry>): Outcome {
    if es == [] then Ok(t)
    else match ApplyAll(t, es[..|es| - 1])
      case Fail(t') => Fail(t')
      case Ok(t') => ApplyEntry(t', es[|es| - 1])
  }

  lemma EntryEffect(t: Tree, e: Entry)
    requires WellFormed(t)
    ensures var o := ApplyEntry(t, e);
            && WellFormed(o.tree)
            && Contained(t, o.tree, e.path)
            && (o.Ok? && !e.kind.KOther? ==> Placed(t, o.tree, e.path, NodeOf(e.kind)))
  {
    match e.kind
    case KDir => MkdirAllEffect(t, e.path);
    case KFile(c) => WriteFileEffect(t, e.path, c);
    case KLink(l) => MakeLinkEffect(t, e.path, l);
    case KOther =>
  }

  /** When an entry can be applied: a directory where no ancestor is anything else, a file
      where nothing but a file stands, a link where nothing lies below. */
  lemma EntrySucceedsIff(t: Tree, e: Entry)
    requires WellFormed(t)
    ensures ApplyEntry(t, e).Ok? <==>
            && !Escapes(e.path)
            && (e.kind.KDir? ==> OpenAbove(t, e.path) && (e.path in t ==> t[e.path] == Dir))
            && (e.kind.KFile? ==> e.path != [] && OpenAbove(t, e.path) && (e.path in t ==> t[e.path].File?))
            && (e.kind.KLink? ==> && e.path != [] && OpenAbove(t, e.path)
                                  && forall q :: q in t && Covers(e.path, q) ==> q == e.path)
  {
    match e.kind
    case KDir => MkdirAllEffect(t, e.path);
    case KFile(c) => WriteFileEffect(t, e.path, c);
    case KLink(l) => MakeLinkEffect(t, e.path, l);
    case KOther =>
  }

  /** Every path is as the snapshot has it, or as it was before. */
  ghost predicate OverlaidAt(t: Tree, t': Tree, es: seq<Entry>, p: Path)
    requires Plain(es)
  {
    && (p in t' <==> p in t || p in Keep(es))
    && (p in Keep(es) ==> p in t' && t'[p] == Expected(es, p))
    && (p in t && p !in Keep(es) ==> p in t' && t'[p] == t[p])
  }

  lemma OverlayStep(t: Tree, m: Tree, t': Tree, es: seq<Entry>, p: Path)
    requires es != [] && Plain(es) && p != []
    requires OverlaidAt(t, m, es[..|es| - 1], p)
    requires Placed(m, t', es[|es| - 1].path, NodeOf(es[|es| - 1].kind))
    ensures OverlaidAt(t, t', es, p)
  {
    var init, e := es[..|es| - 1], es[|es| - 1];
    assert p in Keep(es) <==> p in Keep(init) || Covers(p, e.path);
    if p != e.path && p !in Keep(init) {
      UnnamedIsDir(init, p);
    }
  }

  /** A successful extraction overlays the snapshot on the destination: the last entry of
      each path wins, ancestors are directories, everything else is as it was. */
  lemma {:induction false} ExtractionOverlays(t: Tree, es: seq<Entry>)
    requires WellFormed(t) && Plain(es) && ApplyAll(t, es).Ok?
    ensures WellFormed(ApplyAll(t, es).tree)
    ensures forall p :: p != [] ==> OverlaidAt(t, ApplyAll(t, es).tree, es, p)
  {
    if es != [] {
      var init, e := es[..|es| - 1], es[|es| - 1];
      ExtractionOverlays(t, init);
      var m, t' := ApplyAll(t, init).tree, ApplyAll(t, es).tree;
      EntryEffect(m, e);
      forall p | p != []
        ensures OverlaidAt(t, t', es, p)
      {
        OverlayStep(t, m, t', es, p);
      }
    }
  }

  /** Whether or not extraction succeeds, it loses no path and touches only what its
      entries name and the directories above. */
  ghost predicate Additive(t: Tree, t': Tree, keep: set<Path>) {
    && (forall p :: p in t ==> p in t')
    && (forall p :: p != [] && p !in keep ==> (p in t' <==> p in t) && (p in t ==> t'[p] == t[p]))
  }

  lemma {:induction false} ExtractionIsAdditive(t: Tree, es: seq<Entry>)
    requires WellFormed(t)
    ensures WellFormed(ApplyAll(t, es).tree) && Additive(t, ApplyAll(t, es).tree, Keep(es))
  {
    if es != [] {
      ExtractionIsAdditive(t, es[..|es| - 1]);
      EntryEffect(ApplyAll(t, es[..|es| - 1]).tree, es[|es| - 1]);
    }
  }

  lemma {:induction false} ApplyAppend(t: Tree, es: seq<Entry>, more: seq<Entry>)
    ensures ApplyAll(t, es + more) == match ApplyAll(t, es)
                                      case Fail(t') => Fail(t')
                                      case Ok(t') => ApplyAll(t', more)
    decreases |more|
  {
    if more == [] {
      assert es + more == es;
    } else {
      assert (es + more)[..|es + more| - 1] == es + more[..|more| - 1];
      ApplyAppend(t, es, more[..|more| - 1]);
    }
  }

  lemma {:induction false} KeepAppend(es: seq<Entry>, more: seq<Entry>)
    ensures Keep(es + more) == Keep(es) + Keep(more)
    decreases |more|
  {
    if more == [] {
      assert es + more == es;
    } else {
      assert (es + more)[..|es + more| - 1] == es + more[..|more| - 1];
      KeepAppend(es, more[..|more| - 1]);
    }
  }

  // ---- archives of a run --------------------------------------------------

  /** Extraction breaks at an entry; `partial` is what reached the disk, if anything. */
  datatype Fault = Fault(at: nat, partial: Option<string>)

  /** One archive: whether it could be fetched, is not a control-plane archive, matches its
      sidecar and lists; its entries; and whether its extraction breaks. */
  datatype Archive = Archive(admitted: bool, raws: seq<RawEntry>, fault: Option<Fault>)

  /** An archive without entries is refused like an unreadable one. */
  predicate Admitted(a: Archive) { a.admitted && a.raws != [] }

  /** What an entry leaves behind when it breaks off. */
  function Interrupted(t: Tree, e: Entry, partial: Option<string>): Tree {
    if partial.None? || Escapes(e.path) then t
    else match e.kind
      case KDir => MkdirAll(t, e.path).tree
      case KFile(_) => WriteFile(t, e.path, partial.value).tree
      case KLink(l) => var o := MakeLink(t, e.path, l); if o.Ok? then o.tree - {e.path} else o.tree
      case KOther => t
  }

  predicate Breaks(a: Archive, f: Filter) {
    a.fault.Some? && a.fault.value.at < |Selected(a.raws, f)|
  }

  function ExtractArchive(t: Tree, a: Archive, f: Filter): Outcome {
    var es := Selected(a.raws, f);
    if Breaks(a, f) then
      match ApplyAll(t, es[..a.fault.value.at])
      case Fail(t') => Fail(t')
      case Ok(t') => Fail(Interrupted(t', es[a.fault.value.at], a.fault.value.partial))
    else ApplyAll(t, es)
  }

  function ExtractRun(t: Tree, archives: seq<Archive>, f: Filter): Outcome {
    if archives == [] then Ok(t)
    else match ExtractRun(t, archives[..|archives| - 1], f)
      case Fail(t') => Fail(t')
      case Ok(t') =>
        var a := archives[|archives| - 1];
        if Admitted(a) then ExtractArchive(t', a, f) else Fail(t')
  }

  /** The selected entries of all archives, in order: later archives win. */
  function AllEntries(archives: seq<Archive>, f: Filter): seq<Entry> {
    if archives == [] then []
    else AllEntries(archives[..|archives| - 1], f) + Selected(archives[|archives| - 1].raws, f)
  }

  lemma {:induction false} RunIsOneExtraction(t: Tree, archives: seq<Archive>, f: Filter)
    requires ExtractRun(t, archives, f).Ok?
    ensures ExtractRun(t, archives, f) == ApplyAll(t, AllEntries(archives, f))
  {
    if archives != [] {
      var init, a := archives[..|archives| - 1], archives[|archives| - 1];
      RunIsOneExtraction(t, init, f);
      ApplyAppend(t, AllEntries(init, f), Selected(a.raws, f));
    }
  }

  /** The archive was fetched, passed its gates, holds an entry, and its extraction does not
      break at any entry the filter selects. */
  ghost predicate Sound(a: Archive, f: Filter) {
    a.admitted && a.raws != [] && (a.fault.Some? ==> a.fault.value.at >= |Selected(a.raws, f)|)
  }

  lemma ArchiveSucceedsIff(t: Tree, a: Archive, f: Filter)
    ensures Admitted(a) && ExtractArchive(t, a, f).Ok? <==> Sound(a, f) && ApplyAll(t, Selected(a.raws, f)).Ok?
  {
  }

  /** A run is extracted in full exactly when every archive is sound and the entries apply
      one after the other. */
  lemma {:induction false} RunSucceedsIff(t: Tree, archives: seq<Archive>, f: Filter)
    ensures ExtractRun(t, archives, f).Ok? <==>
            (forall i :: 0 <= i < |archives| ==> Sound(archives[i], f)) && ApplyAll(t, AllEntries(archives, f)).Ok?
  {
    if archives != [] {
      var init, a := archives[..|archives| - 1], archives[|archives| - 1];
      RunSucceedsIff(t, init, f);
      assert (forall i :: 0 <= i < |archives| ==> Sound(archives[i], f)) <==>
             (forall i :: 0 <= i < |init| ==> Sound(init[i], f)) && Sound(a, f);
      ApplyAppend(t, AllEntries(init, f), Selected(a.raws, f));
      if ExtractRun(t, init, f).Ok? {
        RunIsOneExtraction(t, init, f);
        ArchiveSucceedsIff(ExtractRun(t, init, f).tree, a, f);
      }
    }
  }

  /** Some archive of the run holds the entry. */
  ghost predicate HeldByRun(archives: seq<Archive>, e: Entry) {
    exists a :: a in archives && Holds(a.raws, e)
  }

  /** What a run acts on is exactly what its archives hold and the filter includes. */
  lemma {:induction false} AllEntriesMeaning(archives: seq<Archive>, f: Filter, e: Entry)
    ensures e in AllEntries(archives, f) <==> Includes(f, e.path) && HeldByRun(archives, e)
  {
    if archives != [] {
      var init, last := archives[..|archives| - 1], archives[|archives| - 1];
      AllEntriesMeaning(init, f, e);
      SelectedMeaning(last.raws, f, e);
      assert forall a :: a in archives <==> a in init || a == last;
      assert HeldByRun(archives, e) <==> HeldByRun(init, e) || Holds(last.raws, e);
    }
  }

  /** The archives hold nothing but directories, regular files and symlinks. */
  ghost predicate PlainArchives(archives: seq<Archive>) {
    forall a, r :: a in archives && r in a.raws ==> !r.kind.KOther?
  }

  lemma PlainSelection(archives: seq<Archive>, f: Filter)
    requires PlainArchives(archives)
    ensures Plain(AllEntries(archives, f))
  {
    var es := AllEntries(archives, f);
    forall i | 0 <= i < |es|
      ensures !es[i].kind.KOther?
    {
      AllEntriesMeaning(archives, f, es[i]);
    }
  }

  // ---- pruning to the snapshot --------------------------------------------

  /** The path lies under a scope root: its first `depth` segments are in the snapshot. */
  predicate InScope(p: Path, keep: set<Path>, depth: nat) {
    depth <= |p| && p[..depth] in keep
  }

  /** Inside the scope only kept paths stay, and what cannot be removed. */
  function Pruned(t: Tree, keep: set<Path>, depth: nat, stuck: set<Path>): Tree {
    map p | p in t && (InScope(p, keep, depth) ==> p in keep || Pinned(t, p, stuck)) :: t[p]
  }

  /** Files and links; directories do not count as restored. */
  function Count(es: seq<Entry>): nat {
    if es == [] then 0
    else Count(es[..|es| - 1]) + if es[|es| - 1].kind.KFile? || es[|es| - 1].kind.KLink? then 1 else 0
  }

  /** Entries of an archive that are not directories, selected or not. */
  function NonDirs(raws: seq<RawEntry>): nat {
    if raws == [] then 0
    else NonDirs(raws[..|raws| - 1]) + if raws[|raws| - 1].kind.KDir? then 0 else 1
  }

  function Archived(archives: seq<Archive>): nat {
    if archives == [] then 0 else Archived(archives[..|archives| - 1]) + NonDirs(archives[|archives| - 1].raws)
  }

  lemma {:induction false} CountIsNumber(es: seq<Entry>)
    ensures Count(es) == |set i | 0 <= i < |es| && (es[i].kind.KFile? || es[i].kind.KLink?)|
  {
    if es != [] {
      var n := |es| - 1;
      CountIsNumber(es[..n]);
      var before := set i | 0 <= i < n && (es[..n][i].kind.KFile? || es[..n][i].kind.KLink?);
      var all := set i | 0 <= i < |es| && (es[i].kind.KFile? || es[i].kind.KLink?);
      assert all == before + if es[n].kind.KFile? || es[n].kind.KLink? then {n} else {};
    }
  }

  lemma {:induction false} NoFilesArchived(archives: seq<Archive>)
    ensures Archived(archives) == 0 <==> forall i, r :: 0 <= i < |archives| && r in archives[i].raws ==> r.kind.KDir?
  {
    if archives != [] {
      var init, a := archives[..|archives| - 1], archives[|archives| - 1];
      NoFilesArchived(init);
      NoFilesIn(a.raws);
      assert forall i :: 0 <= i < |init| ==> init[i] == archives[i];
    }
  }

  lemma {:induction false} NoFilesIn(raws: seq<RawEntry>)
    ensures NonDirs(raws) == 0 <==> forall r :: r in raws ==> r.kind.KDir?
  {
    if raws != [] {
      var init, last := raws[..|raws| - 1], raws[|raws| - 1];
      NoFilesIn(init);
      assert forall r :: r in raws <==> r in init || r == last;
    }
  }

  /** Nothing restored has two causes: a snapshot of bare directories, or a filter that
      excluded every file. */
  datatype Report = Restored(files: nat) | NothingRestored(emptySnapshot: bool) | Stopped

  datatype Result = Result(tree: Tree, report: Report)

  /** A restore of a run's archives under a filter, pruning at `depth`. A run that recorded
      no archive is refused. A removal that fails is not reported. */
  function RestoreRun(t: Tree, archives: seq<Archive>, f: Filter, depth: nat, stuck: set<Path>): Result {
    if archives == [] then Result(t, Stopped) else
    match ExtractRun(t, archives, f)
    case Fail(t') => Result(t', Stopped)
    case Ok(t') =>
      var es := AllEntries(archives, f);
      Result(Pruned(t', Keep(es), depth, stuck),
             if Count(es) == 0 then NothingRestored(Archived(archives) == 0) else Restored(Count(es)))
  }

  /** The report: the number of files and links restored; if there is none, whether the
      archives held nothing but directories. */
  lemma ReportMeaning(t: Tree, archives: seq<Archive>, f: Filter, depth: nat, stuck: set<Path>)
    ensures var es, r := AllEntries(archives, f), RestoreRun(t, archives, f, depth, stuck).report;
            var files := |set i | 0 <= i < |es| && (es[i].kind.KFile? || es[i].kind.KLink?)|;
            if archives == [] || ExtractRun(t, archives, f).Fail? then r == Stopped
            else if files > 0 then r == Restored(files)
            else r == NothingRestored(forall i, e :: 0 <= i < |archives| && e in archives[i].raws ==> e.kind.KDir?)
  {
    CountIsNumber(AllEntries(archives, f));
    NoFilesArchived(archives);
  }

  // ---- what a restore achieves --------------------------------------------

  /** The snapshot covers what lies above it, so it never changes what is pinned elsewhere. */
  lemma PinnedBefore(t: Tree, m: Tree, es: seq<Entry>, stuck: set<Path>, p: Path)
    requires Plain(es) && p != [] && p !in Keep(es) && forall q :: q != [] ==> OverlaidAt(t, m, es, q)
    ensures Pinned(m, p, stuck) <==> Pinned(t, p, stuck)
  {
    KeepIsPrefixClosed(es);
    forall u | Covers(p, u)
      ensures u in m <==> u in t
    {
      assert OverlaidAt(t, m, es, u);
    }
  }

  /** The path survives without the snapshot: out of scope, or impossible to remove. */
  predicate Stays(t: Tree, p: Path, keep: set<Path>, depth: nat, stuck: set<Path>) {
    p in t && (InScope(p, keep, depth) ==> Pinned(t, p, stuck))
  }

  lemma PrunedOverlay(t: Tree, m: Tree, es: seq<Entry>, depth: nat, stuck: set<Path>, p: Path)
    requires Plain(es) && p != [] && forall q :: q != [] ==> OverlaidAt(t, m, es, q)
    ensures var t' := Pruned(m, Keep(es), depth, stuck);
            && (p in t' <==> p in Keep(es) || Stays(t, p, Keep(es), depth, stuck))
            && (p in Keep(es) ==> t'[p] == Expected(es, p))
            && (p in t && p in t' && p !in Keep(es) ==> t'[p] == t[p])
  {
    assert OverlaidAt(t, m, es, p);
    if p !in Keep(es) {
      PinnedBefore(t, m, es, stuck, p);
    }
  }

  /** Replacing exactly, for every filter: inside the scope the tree is the snapshot and
      nothing else but what cannot be removed; outside it only the snapshot's own paths may
      differ from before. It holds also when the restore then reports that nothing was
      restored. */
  lemma RestoreReplacesExactly(t: Tree, archives: seq<Archive>, f: Filter, depth: nat, stuck: set<Path>, p: Path)
    requires WellFormed(t) && Plain(AllEntries(archives, f)) && p != []
    requires !RestoreRun(t, archives, f, depth, stuck).report.Stopped?
    ensures var es, t' := AllEntries(archives, f), RestoreRun(t, archives, f, depth, stuck).tree;
            && (p in t' <==> p in Keep(es) || Stays(t, p, Keep(es), depth, stuck))
            && (p in Keep(es) ==> t'[p] == Expected(es, p))
            && (p in t && p in t' && p !in Keep(es) ==> t'[p] == t[p])
  {
    var es := AllEntries(archives, f);
    RunIsOneExtraction(t, archives, f);
    ExtractionOverlays(t, es);
    PrunedOverlay(t, ApplyAll(t, es).tree, es, depth, stuck, p);
  }

  /** Leftovers are silent: a path that the snapshot does not hold and that cannot be
      removed is still there after a restore that reports success. */
  lemma LeftoversAreSilent(t: Tree, archives: seq<Archive>, f: Filter, depth: nat, stuck: set<Path>, p: Path)
    requires WellFormed(t) && Plain(AllEntries(archives, f)) && p != []
    requires !RestoreRun(t, archives, f, depth, stuck).report.Stopped? && Count(AllEntries(archives, f)) > 0
    requires p in t && p !in Keep(AllEntries(archives, f)) && Pinned(t, p, stuck)
    ensures var r := RestoreRun(t, archives, f, depth, stuck); r.report.Restored? && p in r.tree && r.tree[p] == t[p]
  {
    RestoreReplacesExactly(t, archives, f, depth, stuck, p);
  }

  /** What cannot be removed is there after every restore, with the directories above it. */
  lemma StuckStays(t: Tree, archives: seq<Archive>, f: Filter, depth: nat, stuck: set<Path>, u: Path, p: Path)
    requires WellFormed(t) && Plain(AllEntries(archives, f))
    requires u in stuck && u in t && Covers(p, u) && p in t && p != []
    requires !RestoreRun(t, archives, f, depth, stuck).report.Stopped?
    ensures p in RestoreRun(t, archives, f, depth, stuck).tree
  {
    RestoreReplacesExactly(t, archives, f, depth, stuck, p);
  }

  /** What a whole-run restore makes of a path: inside a stack the archives cover it is as
      they say, or left because it cannot be removed; anywhere else it is as it was. */
  ghost predicate WholeRunAt(t: Tree, t': Tree, archives: seq<Archive>, stuck: set<Path>, p: Path)
    requires Plain(AllEntries(archives, Everything)) && p != []
  {
    var es := AllEntries(archives, Everything);
    if p[..1] in Keep(es)
    then
      && (p in t' <==> p in Keep(es) || (p in t && Pinned(t, p, stuck)))
      && (p in t' ==> if p in Keep(es) then t'[p] == Expected(es, p) else p in t && t'[p] == t[p])
    else (p in t' <==> p in t) && (p in t ==> t'[p] == t[p])
  }

  /** A whole-run restore rewinds each stack the snapshot covers to the snapshot and leaves
      every other stack untouched. */
  lemma WholeRunRestore(t: Tree, archives: seq<Archive>, stuck: set<Path>, p: Path)
    requires WellFormed(t) && Plain(AllEntries(archives, Everything)) && p != []
    requires !RestoreRun(t, archives, Everything, 1, stuck).report.Stopped?
    ensures WholeRunAt(t, RestoreRun(t, archives, Everything, 1, stuck).tree, archives, stuck, p)
  {
    var es := AllEntries(archives, Everything);
    RestoreReplacesExactly(t, archives, Everything, 1, stuck, p);
    KeepIsPrefixClosed(es);
    assert Covers(p[..1], p);
  }

  lemma {:induction false} SelectedIsIncluded(raws: seq<RawEntry>, f: Filter)
    ensures forall i :: 0 <= i < |Selected(raws, f)| ==> Includes(f, Selected(raws, f)[i].path)
  {
    if raws != [] {
      SelectedIsIncluded(raws[..|raws| - 1], f);
    }
  }

  lemma {:induction false} AllEntriesIncluded(archives: seq<Archive>, f: Filter)
    ensures forall i :: 0 <= i < |AllEntries(archives, f)| ==> Includes(f, AllEntries(archives, f)[i].path)
  {
    if archives != [] {
      AllEntriesIncluded(archives[..|archives| - 1], f);
      SelectedIsIncluded(archives[|archives| - 1].raws, f);
    }
  }

  /** Under an anchored filter the snapshot keeps the anchor's ancestors and paths below. */
  lemma AnchoredKeep(archives: seq<Archive>, root: Path, p: Path)
    requires root != [] && p != []
    ensures var keep := Keep(AllEntries(archives, Anchored(root)));
            && (p in keep ==> Covers(p, root) || Covers(root, p))
            && (keep != {} && Covers(p, root) ==> p in keep)
  {
    var es := AllEntries(archives, Anchored(root));
    AllEntriesIncluded(archives, Anchored(root));
    KeepMeaning(es, p);
    if p in Keep(es) {
      var i :| 0 <= i < |es| && Covers(p, es[i].path);
      assert Includes(Anchored(root), es[i].path);
      if |p| <= |root| {
        assert p == es[i].path[..|p|] == root[..|p|];
      } else {
        assert root == es[i].path[..|root|] == p[..|root|];
      }
    }
    if Keep(es) != {} && Covers(p, root) {
      assert es != [];
      assert Includes(Anchored(root), es[0].path);
      assert Covers(p, es[0].path);
    }
  }

  /** What restoring one volume of a stack makes of a path. Below the volume it is as the
      archives say, or left because it cannot be removed; above, it is a directory of the
      snapshot; elsewhere it survives unchanged exactly when it is not under the first
      segment of the volume or cannot be removed. Archives that hold nothing of the volume
      change nothing. */
  ghost predicate VolumeAt(t: Tree, t': Tree, archives: seq<Archive>, stack: string, volume: Path, stuck: set<Path>,
                           p: Path)
    requires Plain(AllEntries(archives, Anchored([stack] + volume))) && volume != []
  {
    var root, es := [stack] + volume, AllEntries(archives, Anchored([stack] + volume));
    if Keep(es) == {} then
      (p in t' <==> p in t) && (p in t ==> t'[p] == t[p])
    else if Covers(root, p) then
      && (p in t' <==> p in Keep(es) || (p in t && Pinned(t, p, stuck)))
      && (p in t' ==> if p in Keep(es) then t'[p] == Expected(es, p) else p in t && t'[p] == t[p])
    else if Covers(p, root) then
      p in t' && t'[p] == Expected(es, p)
    else
      && (p in t' <==> p in t && (Covers([stack, volume[0]], p) ==> Pinned(t, p, stuck)))
      && (p in t' ==> p in t && t'[p] == t[p])
  }

  /** Restoring one volume of a stack. A one-segment volume never touches its siblings; a
      deeper one removes everything beside it that the snapshot does not hold. */
  lemma VolumeRestore(t: Tree, archives: seq<Archive>, stack: string, volume: Path, stuck: set<Path>, p: Path)
    requires WellFormed(t) && p != [] && volume != []
    requires Plain(AllEntries(archives, Anchored([stack] + volume)))
    requires !RestoreRun(t, archives, Anchored([stack] + volume), 2, stuck).report.Stopped?
    ensures VolumeAt(t, RestoreRun(t, archives, Anchored([stack] + volume), 2, stuck).tree,
                     archives, stack, volume, stuck, p)
  {
    var root, f := [stack] + volume, Anchored([stack] + volume);
    RestoreReplacesExactly(t, archives, f, 2, stuck, p);
    if Keep(AllEntries(archives, f)) != {} {
      AnchoredKeep(archives, root, p);
      AnchoredScope(archives, stack, volume, p);
    }
  }

  /** The scope of an anchored filter is the first directory below the stack. */
  lemma AnchoredScope(archives: seq<Archive>, stack: string, volume: Path, p: Path)
    requires volume != [] && Keep(AllEntries(archives, Anchored([stack] + volume))) != {}
    ensures InScope(p, Keep(AllEntries(archives, Anchored([stack] + volume))), 2) <==> Covers([stack, volume[0]], p)
  {
    var root, top := [stack] + volume, [stack, volume[0]];
    assert root[..2] == top;
    AnchoredKeep(archives, root, top);
    if 2 <= |p| {
      AnchoredKeep(archives, root, p[..2]);
      assert Covers(top, p) <==> p[..2] == top;
    }
  }

  /** Siblings of a one-segment volume are left exactly as they were. */
  lemma SiblingVolumesSurvive(t: Tree, archives: seq<Archive>, stack: string, volume: string, stuck: set<Path>, p: Path)
    requires WellFormed(t) && p != [] && !Covers([stack, volume], p) && p != [stack]
    requires var f := Anchored([stack, volume]);
             Plain(AllEntries(archives, f)) && !RestoreRun(t, archives, f, 2, stuck).report.Stopped?
    ensures var t' := RestoreRun(t, archives, Anchored([stack, volume]), 2, stuck).tree;
            (p in t' <==> p in t) && (p in t ==> t'[p] == t[p])
  {
    assert [stack] + [volume] == [stack, volume];
    VolumeRestore(t, archives, stack, [volume], stuck, p);
  }

  /** Some selected entry lies, like `p`, below the same two segments. */
  ghost predicate SharesTop(es: seq<Entry>, p: Path) {
    2 <= |p| && exists i :: 0 <= i < |es| && Covers(p[..2], es[i].path)
  }

  /** What restoring a volume name over a whole-disk run makes of a path: the matching paths
      become the snapshot's, and of the rest exactly those are removed that lie in an app
      directory, two segments deep, holding a match somewhere. */
  ghost predicate AnyDepthAt(t: Tree, t': Tree, archives: seq<Archive>, volume: Path, stuck: set<Path>, p: Path)
    requires Plain(AllEntries(archives, AnyDepth(volume)))
  {
    var es := AllEntries(archives, AnyDepth(volume));
    if p in Keep(es) then p in t' && t'[p] == Expected(es, p)
    else
      && (p in t' <==> p in t && (SharesTop(es, p) ==> Pinned(t, p, stuck)))
      && (p in t' ==> p in t && t'[p] == t[p])
  }

  /** Restoring a volume name over a whole-disk run: a match below a neighbouring directory
      empties that directory of everything else. */
  lemma WholeDiskVolumeRestore(t: Tree, archives: seq<Archive>, volume: Path, stuck: set<Path>, p: Path)
    requires WellFormed(t) && Plain(AllEntries(archives, AnyDepth(volume))) && p != []
    requires !RestoreRun(t, archives, AnyDepth(volume), 2, stuck).report.Stopped?
    ensures AnyDepthAt(t, RestoreRun(t, archives, AnyDepth(volume), 2, stuck).tree, archives, volume, stuck, p)
  {
    var es := AllEntries(archives, AnyDepth(volume));
    RestoreReplacesExactly(t, archives, AnyDepth(volume), 2, stuck, p);
    if 2 <= |p| {
      KeepMeaning(es, p[..2]);
    }
  }

  /** What a restore asked for with this stack and volume makes of a tree. */
  ghost predicate RestoredFor(t: Tree, t': Tree, archives: seq<Archive>, stack: Option<string>, volume: Option<Path>,
                              stuck: set<Path>)
    requires PlainArchives(archives)
  {
    forall p :: p != [] ==>
      (PlainSelections(archives, stack, volume);
       if volume.None? || volume.value == [] then WholeRunAt(t, t', archives, stuck, p)
       else if stack.Some? && stack.value != "" then VolumeAt(t, t', archives, stack.value, volume.value, stuck, p)
       else AnyDepthAt(t, t', archives, volume.value, stuck, p))
  }

  lemma PlainSelections(archives: seq<Archive>, stack: Option<string>, volume: Option<Path>)
    requires PlainArchives(archives)
    ensures Plain(AllEntries(archives, Everything))
    ensures volume.Some? ==> Plain(AllEntries(archives, AnyDepth(volume.value)))
    ensures volume.Some? && stack.Some? ==> Plain(AllEntries(archives, Anchored([stack.value] + volume.value)))
  {
    PlainSelection(archives, Everything);
    if volume.Some? {
      PlainSelection(archives, AnyDepth(volume.value));
      if stack.Some? {
        PlainSelection(archives, Anchored([stack.value] + volume.value));
      }
    }
  }

  /** The filter and the depth a request stands for do what was asked for. */
  lemma RequestRestores(t: Tree, archives: seq<Archive>, stack: Option<string>, volume: Option<Path>, stuck: set<Path>)
    requires WellFormed(t) && PlainArchives(archives)
    requires !RestoreRun(t, archives, FilterFor(stack, volume), DepthFor(volume), stuck).report.Stopped?
    ensures RestoredFor(t, RestoreRun(t, archives, FilterFor(stack, volume), DepthFor(volume), stuck).tree,
                        archives, stack, volume, stuck)
  {
    PlainSelections(archives, stack, volume);
    forall p | p != []
      ensures var t' := RestoreRun(t, archives, FilterFor(stack, volume), DepthFor(volume), stuck).tree;
              if volume.None? || volume.value == [] then WholeRunAt(t, t', archives, stuck, p)
              else if stack.Some? && stack.value != ""
              then VolumeAt(t, t', archives, stack.value, volume.value, stuck, p)
              else AnyDepthAt(t, t', archives, volume.value, stuck, p)
    {
      if volume.None? || volume.value == [] {
        WholeRunRestore(t, archives, stuck, p);
      } else if stack.Some? && stack.value != "" {
        VolumeRestore(t, archives, stack.value, volume.value, stuck, p);
      } else {
        WholeDiskVolumeRestore(t, archives, volume.value, stuck, p);
      }
    }
  }

  /** A request for a one-segment volume of a stack leaves its siblings alone. */
  lemma RequestSparesSiblings(t: Tree, t': Tree, archives: seq<Archive>, stack: string, volume: string,
                              stuck: set<Path>, p: Path)
    requires PlainArchives(archives) && stack != "" && RestoredFor(t, t', archives, Some(stack), Some([volume]), stuck)
    requires p != [] && p != [stack] && !Covers([stack, volume], p)
    ensures (p in t' <==> p in t) && (p in t ==> t'[p] == t[p])
  {
    PlainSelections(archives, Some(stack), Some([volume]));
    assert VolumeAt(t, t', archives, stack, [volume], stuck, p);
    assert [stack] + [volume] == [stack, volume];
  }

  // ---- what a failed restore leaves ---------------------------------------

  /** Like `Contained`, but the entry itself may be gone. */
  ghost predicate ContainedBut(t: Tree, t': Tree, p: Path, lost: set<Path>) {
    && (forall q :: q in t && q !in lost ==> q in t')
    && (forall q :: !Covers(q, p) ==> (q in t' <==> q in t) && (q in t ==> t'[q] == t[q]))
  }

  /** Like `Additive`, but the paths in `lost` may be gone. */
  ghost predicate AdditiveBut(t: Tree, t': Tree, keep: set<Path>, lost: set<Path>) {
    && (forall p :: p in t && p !in lost ==> p in t')
    && (forall p :: p != [] && p !in keep ==> (p in t' <==> p in t) && (p in t ==> t'[p] == t[p]))
  }

  /** What a break costs: the path of a symlink whose old entry was unlinked and whose new
      one was not made. */
  function LostAt(m: Tree, e: Entry, partial: Option<string>): set<Path> {
    if partial.Some? && e.kind.KLink? && !Escapes(e.path) && MakeLink(m, e.path, e.kind.target).Ok?
    then {e.path} else {}
  }

  /** What an archive costs: the entries before the break extract, and the break is such. */
  function LostBy(t: Tree, a: Archive, f: Filter): set<Path> {
    if !Breaks(a, f) then {} else
    var es, at := Selected(a.raws, f), a.fault.value.at;
    var m := ApplyAll(t, es[..at]);
    if m.Ok? then LostAt(m.tree, es[at], a.fault.value.partial) else {}
  }

  /** What a run costs: only the archive it stops at can cost something. */
  function LostInRun(t: Tree, archives: seq<Archive>, f: Filter): set<Path> {
    if archives == [] then {}
    else
      var init, a := archives[..|archives| - 1], archives[|archives| - 1];
      match ExtractRun(t, init, f)
      case Fail(_) => LostInRun(t, init, f)
      case Ok(m) => if Admitted(a) then LostBy(m, a, f) else {}
  }

  lemma UnlinkedStaysWellFormed(m: Tree, p: Path, l: string)
    requires WellFormed(m) && MakeLink(m, p, l).Ok?
    ensures WellFormed(MakeLink(m, p, l).tree - {p})
  {
    MakeLinkEffect(m, p, l);
    var t := MakeLink(m, p, l).tree;
    FileHasNoChildren(t, p);
    forall q | q in t && q != p && q != []
      ensures Parent(q) != p
    {
      assert Covers(Parent(q), q) && Parent(q) != q;
    }
  }

  lemma BreakIsContained(t: Tree, e: Entry, partial: Option<string>)
    requires WellFormed(t)
    ensures WellFormed(Interrupted(t, e, partial))
    ensures ContainedBut(t, Interrupted(t, e, partial), e.path, LostAt(t, e, partial))
    ensures forall p :: p in LostAt(t, e, partial) ==> p !in Interrupted(t, e, partial)
  {
    if partial.Some? {
      EntryEffect(t, if e.kind.KFile? then Entry(e.path, KFile(partial.value)) else e);
      if e.kind.KLink? && !Escapes(e.path) && MakeLink(t, e.path, e.kind.target).Ok? {
        UnlinkedStaysWellFormed(t, e.path, e.kind.target);
      }
    }
  }

  /** A file that breaks off is left with what was written of it; an entry of which nothing
      reached the disk leaves everything as it was. */
  lemma BrokenFileIsPartial(t: Tree, e: Entry, content: string)
    requires WellFormed(t) && e.kind.KFile? && !Escapes(e.path)
    requires e.path != [] && OpenAbove(t, e.path) && (e.path in t ==> t[e.path].File?)
    ensures Placed(t, Interrupted(t, e, Some(content)), e.path, File(content))
    ensures Interrupted(t, e, None) == t
  {
    WriteFileEffect(t, e.path, content);
  }

  /** A symlink that breaks off between unlinking and linking costs exactly the entry that
      stood in its place. */
  lemma BrokenLinkLosesEntry(t: Tree, e: Entry, partial: string)
    requires WellFormed(t) && e.kind.KLink? && !Escapes(e.path) && e.path != []
    requires e.path in t && !HasChildren(t, e.path)
    ensures Interrupted(t, e, Some(partial)) == t - {e.path}
  {
    var p := e.path;
    forall q | Covers(q, Parent(p))
      ensures q in t && t[q].Dir?
    {
      CoversParent(q, p);
      AncestorsAreDirs(t, p, q);
    }
    assert MkdirAll(t, Parent(p)).tree == t;
  }

  lemma BrokenLinkInArchive(t: Tree, a: Archive, f: Filter, e: Entry, m: Tree)
    requires Breaks(a, f) && a.fault.value.partial.Some? && e == Selected(a.raws, f)[a.fault.value.at]
    requires ApplyAll(t, Selected(a.raws, f)[..a.fault.value.at]) == Ok(m) && WellFormed(m)
    requires e.kind.KLink? && !Escapes(e.path) && e.path != [] && e.path in m && !HasChildren(m, e.path)
    ensures ExtractArchive(t, a, f) == Fail(m - {e.path})
  {
    BrokenLinkLosesEntry(m, e, a.fault.value.partial.value);
  }

  lemma OneArchiveStops(t: Tree, a: Archive, f: Filter, depth: nat, stuck: set<Path>, m: Tree)
    requires Admitted(a) && ExtractArchive(t, a, f) == Fail(m)
    ensures RestoreRun(t, [a], f, depth, stuck) == Result(m, Stopped)
  {
    assert [a][..0] == [];
    assert ExtractRun(t, [a], f) == Fail(m);
  }

  /** The same for a whole restore: the archive is extracted up to the link, and the path
      the link was to replace is gone. */
  lemma RestoreLosesBrokenLink(t: Tree, a: Archive, f: Filter, depth: nat, stuck: set<Path>, e: Entry, m: Tree)
    requires WellFormed(t) && Admitted(a)
    requires Breaks(a, f) && a.fault.value.partial.Some? && e == Selected(a.raws, f)[a.fault.value.at]
    requires ApplyAll(t, Selected(a.raws, f)[..a.fault.value.at]) == Ok(m)
    requires e.kind.KLink? && !Escapes(e.path) && e.path != [] && e.path in m && !HasChildren(m, e.path)
    ensures RestoreRun(t, [a], f, depth, stuck) == Result(m - {e.path}, Stopped)
  {
    ExtractionIsAdditive(t, Selected(a.raws, f)[..a.fault.value.at]);
    BrokenLinkInArchive(t, a, f, e, m);
    OneArchiveStops(t, a, f, depth, stuck, m - {e.path});
  }

  lemma AdditiveThenContained(t: Tree, m: Tree, t': Tree, es: seq<Entry>, at: nat, lost: set<Path>)
    requires at < |es| && Additive(t, m, Keep(es[..at])) && ContainedBut(m, t', es[at].path, lost)
    ensures AdditiveBut(t, t', Keep(es), lost)
  {
    KeepAppend(es[..at], es[at..]);
    assert es == es[..at] + es[at..];
    KeepMeaningAll(es);
  }

  lemma ArchiveIsAdditive(t: Tree, a: Archive, f: Filter)
    requires WellFormed(t)
    ensures WellFormed(ExtractArchive(t, a, f).tree)
    ensures AdditiveBut(t, ExtractArchive(t, a, f).tree, Keep(Selected(a.raws, f)), LostBy(t, a, f))
    ensures forall p :: p in LostBy(t, a, f) ==> p !in ExtractArchive(t, a, f).tree
  {
    var es := Selected(a.raws, f);
    if Breaks(a, f) {
      var at := a.fault.value.at;
      ExtractionIsAdditive(t, es[..at]);
      var m := ApplyAll(t, es[..at]);
      if m.Ok? {
        BreakIsContained(m.tree, es[at], a.fault.value.partial);
      }
      AdditiveThenContained(t, m.tree, ExtractArchive(t, a, f).tree, es, at, LostBy(t, a, f));
    } else {
      ExtractionIsAdditive(t, es);
    }
  }

  /** One archive, exactly: a path it found is gone if and only if the archive broke off at
      a symlink for that path, after the entries before it were extracted and the old entry
      was unlinked. */
  lemma ArchiveLosesExactly(t: Tree, a: Archive, f: Filter, p: Path)
    requires WellFormed(t) && p in t
    ensures p !in ExtractArchive(t, a, f).tree <==>
            && Breaks(a, f) && a.fault.value.partial.Some?
            && (var es, at := Selected(a.raws, f), a.fault.value.at;
                var m := ApplyAll(t, es[..at]);
                && es[at].kind.KLink? && es[at].path == p && !Escapes(p)
                && m.Ok? && MakeLink(m.tree, p, es[at].kind.target).Ok?)
  {
    ArchiveIsAdditive(t, a, f);
    assert p !in ExtractArchive(t, a, f).tree <==> p in LostBy(t, a, f);
  }

  lemma KeepMeaningAll(es: seq<Entry>)
    ensures forall p, i :: 0 <= i < |es| && Covers(p, es[i].path) && p != [] ==> p in Keep(es)
  {
    forall p, i | 0 <= i < |es| && Covers(p, es[i].path) && p != []
      ensures p in Keep(es)
    {
      KeepMeaning(es, p);
    }
  }

  /** A restore that stops while fetching, verifying or extracting touches only paths the
      archives name and their ancestors, and of the paths it found exactly those are gone
      that a broken symlink was to replace. */
  lemma {:induction false} StoppedRestoreRemovesNothing(t: Tree, archives: seq<Archive>, f: Filter)
    requires WellFormed(t)
    ensures var t' := ExtractRun(t, archives, f).tree;
            && WellFormed(t')
            && AdditiveBut(t, t', Keep(AllEntries(archives, f)), LostInRun(t, archives, f))
            && forall p :: p in t ==> (p !in t' <==> p in LostInRun(t, archives, f))
    ensures ExtractRun(t, archives, f).Ok? ==> LostInRun(t, archives, f) == {}
  {
    if archives != [] {
      var init, a := archives[..|archives| - 1], archives[|archives| - 1];
      StoppedRestoreRemovesNothing(t, init, f);
      KeepAppend(AllEntries(init, f), Selected(a.raws, f));
      if ExtractRun(t, init, f).Ok? && Admitted(a) {
        ArchiveIsAdditive(ExtractRun(t, init, f).tree, a, f);
      }
    }
  }

  /** No archive selects a symlink. */
  ghost predicate NoLinks(archives: seq<Archive>, f: Filter) {
    forall i, e :: 0 <= i < |archives| && e in Selected(archives[i].raws, f) ==> !e.kind.KLink?
  }

  lemma {:induction false} NoLinksNoLoss(t: Tree, archives: seq<Archive>, f: Filter)
    requires NoLinks(archives, f)
    ensures LostInRun(t, archives, f) == {}
  {
    if archives != [] {
      var init, a := archives[..|archives| - 1], archives[|archives| - 1];
      NoLinksNoLoss(t, init, f);
      if Breaks(a, f) {
        assert Selected(a.raws, f)[a.fault.value.at] in Selected(a.raws, f);
      }
    }
  }

  /** Archives without symlinks lose nothing, wherever the restore stops. */
  lemma WithoutLinksNothingIsLost(t: Tree, archives: seq<Archive>, f: Filter, p: Path)
    requires WellFormed(t) && NoLinks(archives, f) && p in t
    ensures p in ExtractRun(t, archives, f).tree
  {
    NoLinksNoLoss(t, archives, f);
    StoppedRestoreRemovesNothing(t, archives, f);
  }

  /** A stopped restore is decided by the first archive that fails: later ones are not
      even looked at. */
  lemma {:induction false} LaterArchivesUntouched(t: Tree, archives: seq<Archive>, more: seq<Archive>, f: Filter)
    requires ExtractRun(t, archives, f).Fail?
    ensures ExtractRun(t, archives + more, f) == ExtractRun(t, archives, f)
    decreases |more|
  {
    if more == [] {
      assert archives + more == archives;
    } else {
      assert (archives + more)[..|archives + more| - 1] == archives + more[..|more| - 1];
      LaterArchivesUntouched(t, archives, more[..|more| - 1], f);
    }
  }

  /** The trees agree on every path below the target. */
  ghost predicate SameBelowRoot(t: Tree, t': Tree) {
    forall p :: p != [] ==> (p in t' <==> p in t) && (p in t ==> t'[p] == t[p])
  }

  /** The destination already is what the entries say. */
  ghost predicate AlreadyThere(t: Tree, es: seq<Entry>)
    requires Plain(es)
  {
    forall p :: p in Keep(es) ==> p in t && t[p] == Expected(es, p)
  }

  lemma OverlayChanges(t: Tree, t': Tree, es: seq<Entry>)
    requires Plain(es) && forall p :: p != [] ==> OverlaidAt(t, t', es, p)
    ensures SameBelowRoot(t, t') <==> AlreadyThere(t, es)
  {
    KeepIsPrefixClosed(es);
    if SameBelowRoot(t, t') {
      forall p | p in Keep(es)
        ensures p in t && t[p] == Expected(es, p)
      {
        assert OverlaidAt(t, t', es, p);
      }
    }
    if AlreadyThere(t, es) {
      forall p | p != []
        ensures (p in t' <==> p in t) && (p in t ==> t'[p] == t[p])
      {
        assert OverlaidAt(t, t', es, p);
      }
    }
  }

  lemma RefusedHere(t: Tree, init: seq<Archive>, b: Archive, more: seq<Archive>, f: Filter)
    requires ExtractRun(t, init, f).Ok? && !Admitted(b)
    ensures ExtractRun(t, init + [b] + more, f) == Fail(ExtractRun(t, init, f).tree)
  {
    var upTo := init + [b];
    assert upTo[..|upTo| - 1] == init;
    LaterArchivesUntouched(t, upTo, more, f);
  }

  /** The entry set is not read in full before anything is written: when an archive is
      refused, unreadable or truncated, what the earlier ones extracted stays. The
      destination is as it was if and only if it already held what those say. */
  lemma RefusalKeepsEarlierWrites(t: Tree, init: seq<Archive>, b: Archive, more: seq<Archive>, f: Filter, depth: nat,
                                  stuck: set<Path>)
    requires WellFormed(t) && Plain(AllEntries(init, f)) && ExtractRun(t, init, f).Ok? && !Admitted(b)
    ensures var r := RestoreRun(t, init + [b] + more, f, depth, stuck);
            && r == Result(ExtractRun(t, init, f).tree, Stopped)
            && (SameBelowRoot(t, r.tree) <==> AlreadyThere(t, AllEntries(init, f)))
  {
    RefusedHere(t, init, b, more, f);
    RunIsOneExtraction(t, init, f);
    ExtractionOverlays(t, AllEntries(init, f));
    OverlayChanges(t, ExtractRun(t, init, f).tree, AllEntries(init, f));
  }

  /** The report that nothing was restored comes after the prune: a snapshot of bare
      directories has by then emptied its scope. */
  lemma EmptySnapshotStillPrunes(t: Tree, archives: seq<Archive>, f: Filter, depth: nat, stuck: set<Path>, p: Path)
    requires WellFormed(t) && Plain(AllEntries(archives, f)) && p != []
    requires RestoreRun(t, archives, f, depth, stuck).report.NothingRestored?
    requires p !in Keep(AllEntries(archives, f)) && InScope(p, Keep(AllEntries(archives, f)), depth)
    ensures p in RestoreRun(t, archives, f, depth, stuck).tree <==> p in t && Pinned(t, p, stuck)
  {
    RestoreReplacesExactly(t, archives, f, depth, stuck, p);
  }
}
