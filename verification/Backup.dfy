/** Archiving one stack of a frozen snapshot, and restoring it. */
module Backup {
  import opened Common
  import opened Tree
  import opened Restore

  /** What the walk finds at a path of the snapshot. */
  datatype Info = IDir | IFile(content: string) | ILink(target: string) | ISocket | ISpecial

  type Snapshot = map<Path, Info>

  predicate Normal(s: string) { s != "" && s != "." && s != ".." }

  ghost predicate ValidSnapshot(src: Snapshot) {
    forall p :: p in src && p != [] ==>
                  && Parent(p) in src && src[Parent(p)].IDir?
                  && forall i :: 0 <= i < |p| ==> Normal(p[i])
  }

  /** `filepath.Walk` below a root: every path, in whatever order. */
  ghost predicate IsWalk(src: Snapshot, root: Path, walk: seq<Path>) {
    forall p :: p in walk <==> p in src && Covers(root, p)
  }

  /** What is archived of a stack: its directory, or the volumes it was narrowed to. */
  function Roots(stack: string, only: seq<Path>): (roots: seq<Path>)
    ensures roots != [] && forall r :: r in roots ==> Covers([stack], r)
    ensures only == [] ==> forall r :: r in roots <==> r == [stack]
    ensures only != [] ==> forall r :: r in roots <==> exists v :: v in only && r == [stack] + v
  {
    if only == [] then [[stack]]
    else
      var roots := seq(|only|, i requires 0 <= i < |only| => [stack] + only[i]);
      assert forall i :: 0 <= i < |only| ==> roots[i] == [stack] + only[i] && roots[i] in roots;
      roots
  }

  ghost predicate AreWalks(src: Snapshot, roots: seq<Path>, walks: seq<seq<Path>>) {
    |walks| == |roots| && forall i :: 0 <= i < |roots| ==> IsWalk(src, roots[i], walks[i])
  }

  function KindOf(i: Info): Kind
    requires !i.ISocket?
  {
    match i
    case IDir => KDir
    case IFile(c) => KFile(c)
    case ILink(l) => KLink(l)
    case ISpecial => KOther
  }

  /** The header name: the prefix, the path from the stack's parent, and a slash after a
      directory. */
  function MemberName(p: Path, i: Info): RawName {
    RawName(false, DATA + p + if i.IDir? then [""] else [])
  }

  ghost predicate Inside(src: Snapshot, walk: seq<Path>) {
    forall p :: p in walk ==> p in src
  }

  /** The walk without its sockets. */
  function Sockless(src: Snapshot, walk: seq<Path>): seq<Path>
    requires Inside(src, walk)
  {
    if walk == [] then []
    else
      var p := walk[|walk| - 1];
      Sockless(src, walk[..|walk| - 1]) + if src[p].ISocket? then [] else [p]
  }

  /** Paths that have an archive header. */
  ghost predicate Archivable(src: Snapshot, ps: seq<Path>) {
    forall i :: 0 <= i < |ps| ==> ps[i] in src && !src[ps[i]].ISocket?
  }

  function Members(src: Snapshot, ps: seq<Path>): seq<RawEntry>
    requires Archivable(src, ps)
  {
    seq(|ps|, i requires 0 <= i < |ps| => RawEntry(MemberName(ps[i], src[ps[i]]), KindOf(src[ps[i]])))
  }

  function RegularFiles(src: Snapshot, ps: seq<Path>): nat
    requires Archivable(src, ps)
  {
    if ps == [] then 0
    else RegularFiles(src, ps[..|ps| - 1]) + if src[ps[|ps| - 1]].IFile? then 1 else 0
  }

  lemma {:induction false} SocklessIsArchivable(src: Snapshot, walk: seq<Path>)
    requires Inside(src, walk)
    ensures Archivable(src, Sockless(src, walk))
    ensures forall p :: p in Sockless(src, walk) <==> p in walk && !src[p].ISocket?
  {
    if walk != [] {
      SocklessIsArchivable(src, walk[..|walk| - 1]);
    }
  }

  /** `addTree`: sockets are skipped, everything else gets a header, regular files are
      counted. */
  method AddTree(src: Snapshot, walk: seq<Path>) returns (members: seq<RawEntry>, files: nat)
    requires Inside(src, walk)
    ensures Archivable(src, Sockless(src, walk))
    ensures members == Members(src, Sockless(src, walk)) && files == RegularFiles(src, Sockless(src, walk))
  {
    members, files := [], 0;
    for i := 0 to |walk|
      invariant Archivable(src, Sockless(src, walk[..i]))
      invariant members == Members(src, Sockless(src, walk[..i]))
      invariant files == RegularFiles(src, Sockless(src, walk[..i]))
    {
      assert walk[..i + 1][..i] == walk[..i];
      var p := walk[i];
      ghost var ps := Sockless(src, walk[..i]);
      assert ps + [] == ps;
      if !src[p].ISocket? {
        assert (ps + [p])[..|ps|] == ps;
        members := members + [RawEntry(MemberName(p, src[p]), KindOf(src[p]))];
        if src[p].IFile? {
          files := files + 1;
        }
      }
    }
    assert walk[..|walk|] == walk;
  }

  // ---- the member name maps back to the path ------------------------------

  lemma {:induction false} CleanNormal(done: Path, todo: Path, tail: seq<string>)
    requires forall i :: 0 <= i < |todo| ==> Normal(todo[i])
    requires tail == [] || tail == [""]
    ensures Clean(false, done, todo + tail) == done + todo
    decreases |todo|
  {
    if todo == [] {
      assert todo + tail == tail;
    } else {
      assert (todo + tail)[1..] == todo[1..] + tail;
      CleanNormal(done + [todo[0]], todo[1..], tail);
      assert done + [todo[0]] + todo[1..] == done + todo;
    }
  }

  /** A member is named after its path, under `backup/data`, with a slash after a
      directory; stripping the prefix gives the path back: the stack name appears exactly
      once. */
  lemma MemberMapsBack(p: Path, i: Info)
    requires forall k :: 0 <= k < |p| ==> Normal(p[k])
    ensures MemberName(p, i) == RawName(false, ["backup", "data"] + p + if i.IDir? then [""] else [])
    ensures RelPath(MemberName(p, i)) == p
  {
    CleanNormal([], DATA + p, if i.IDir? then [""] else []);
    assert [] + (DATA + p) == DATA + p;
    assert (DATA + p)[|DATA|..] == p;
  }

  /** The restore's view of the archive. */
  function EntriesOf(src: Snapshot, ps: seq<Path>): seq<Entry>
    requires Archivable(src, ps)
  {
    seq(|ps|, i requires 0 <= i < |ps| => Entry(ps[i], KindOf(src[ps[i]])))
  }

  lemma {:induction false} SelectedOneByOne(raws: seq<RawEntry>, es: seq<Entry>)
    requires |raws| == |es|
    requires forall i :: 0 <= i < |raws| ==> RelPath(raws[i].name) == es[i].path && raws[i].kind == es[i].kind
    ensures Selected(raws, Everything) == es
  {
    if raws != [] {
      SelectedOneByOne(raws[..|raws| - 1], es[..|es| - 1]);
      assert es == es[..|es| - 1] + [es[|es| - 1]];
    }
  }

  lemma MembersSelectEntries(src: Snapshot, ps: seq<Path>)
    requires ValidSnapshot(src) && Archivable(src, ps)
    ensures Selected(Members(src, ps), Everything) == EntriesOf(src, ps)
  {
    var raws, es := Members(src, ps), EntriesOf(src, ps);
    forall i | 0 <= i < |raws|
      ensures RelPath(raws[i].name) == es[i].path
    {
      MemberMapsBack(ps[i], src[ps[i]]);
    }
    SelectedOneByOne(raws, es);
  }

  // ---- what the archive says ----------------------------------------------

  ghost predicate Under(roots: seq<Path>, p: Path) {
    exists r :: r in roots && Covers(r, p)
  }

  /** Everything below the roots that is archived, repeated where roots overlap; sockets and
      devices apart. */
  ghost predicate ListsRoots(src: Snapshot, roots: seq<Path>, ps: seq<Path>) {
    && Archivable(src, ps)
    && (forall p :: p in ps <==> p in src && Under(roots, p) && !src[p].ISocket?)
    && (forall i :: 0 <= i < |ps| ==> !src[ps[i]].ISpecial?)
  }

  /** The archive speaks of `p`: it lies below a root, or above one that is archived. */
  ghost predicate Reached(src: Snapshot, roots: seq<Path>, p: Path) {
    && p in src && !src[p].ISocket?
    && exists r :: r in roots && (Covers(r, p) || (Covers(p, r) && r in src && !src[r].ISocket?))
  }

  /** The node is what the snapshot has at `p`. */
  ghost predicate AsInSnapshot(src: Snapshot, p: Path, node: Node)
    requires p in src
  {
    match src[p]
    case IDir => node == Dir
    case IFile(content) => node == File(content)
    case ILink(target) => node == Link(target)
    case ISocket => false
    case ISpecial => false
  }

  /** Entries that agree on a path decide it, however often it is repeated. */
  lemma {:induction false} ExpectedSame(es: seq<Entry>, p: Path, node: Node)
    requires Plain(es) && forall j :: 0 <= j < |es| && es[j].path == p ==> NodeOf(es[j].kind) == node
    requires node == Dir || exists j :: 0 <= j < |es| && es[j].path == p
    ensures Expected(es, p) == node
  {
    if es != [] && es[|es| - 1].path != p {
      ExpectedSame(es[..|es| - 1], p, node);
    }
  }

  lemma {:induction false} SnapshotAncestors(src: Snapshot, p: Path, q: Path)
    requires ValidSnapshot(src) && p in src && Covers(q, p) && q != p
    ensures q in src && src[q].IDir?
    decreases |p|
  {
    CoversParent(q, p);
    if q != Parent(p) {
      SnapshotAncestors(src, Parent(p), q);
    }
  }

  lemma KeptIsReached(src: Snapshot, roots: seq<Path>, ps: seq<Path>, p: Path)
    requires ValidSnapshot(src) && ListsRoots(src, roots, ps) && p in Keep(EntriesOf(src, ps))
    ensures Reached(src, roots, p)
  {
    var es := EntriesOf(src, ps);
    KeepMeaning(es, p);
    var i :| 0 <= i < |es| && Covers(p, es[i].path);
    var q := ps[i];
    assert q in ps;
    if p != q {
      SnapshotAncestors(src, q, p);
    }
    var r :| r in roots && Covers(r, q);
    if r != q {
      SnapshotAncestors(src, q, r);
    }
    Comparable(p, r, q);
  }

  lemma Comparable(p: Path, r: Path, q: Path)
    requires Covers(p, q) && Covers(r, q)
    ensures Covers(p, r) || Covers(r, p)
  {
    if |p| <= |r| {
      assert p == q[..|p|] == r[..|p|];
    } else {
      assert r == q[..|r|] == p[..|r|];
    }
  }

  lemma ReachedIsKept(src: Snapshot, roots: seq<Path>, ps: seq<Path>, p: Path)
    requires ValidSnapshot(src) && ListsRoots(src, roots, ps) && Reached(src, roots, p) && p != []
    ensures p in Keep(EntriesOf(src, ps))
  {
    var es := EntriesOf(src, ps);
    var r :| r in roots && (Covers(r, p) || (Covers(p, r) && r in src && !src[r].ISocket?));
    var q := if Covers(r, p) then p else r;
    assert Covers(r, q);
    assert q in ps;
    var i :| 0 <= i < |ps| && ps[i] == q;
    KeepMeaning(es, p);
    assert Covers(p, es[i].path);
  }

  lemma EntriesArePlain(src: Snapshot, roots: seq<Path>, ps: seq<Path>)
    requires ListsRoots(src, roots, ps)
    ensures Plain(EntriesOf(src, ps))
  {
  }

  /** A kept path is expected as the snapshot has it. */
  lemma KeptAsInSnapshot(src: Snapshot, roots: seq<Path>, ps: seq<Path>, p: Path)
    requires ValidSnapshot(src) && ListsRoots(src, roots, ps) && Plain(EntriesOf(src, ps))
    requires p in Keep(EntriesOf(src, ps)) && p in src
    ensures AsInSnapshot(src, p, Expected(EntriesOf(src, ps), p))
  {
    var es := EntriesOf(src, ps);
    KeptIsReached(src, roots, ps, p);
    KeepMeaning(es, p);
    var i :| 0 <= i < |es| && Covers(p, es[i].path);
    if p in ps {
      var j :| 0 <= j < |ps| && ps[j] == p;
      assert es[j].path == p;
    } else {
      assert ps[i] in ps;
      SnapshotAncestors(src, ps[i], p);
    }
    ExpectedSame(es, p, NodeOf(KindOf(src[p])));
  }

  /** The archive keeps exactly the paths below its roots and the directories above them,
      sockets excepted. */
  lemma ArchiveKeeps(src: Snapshot, roots: seq<Path>, ps: seq<Path>, p: Path)
    requires ValidSnapshot(src) && ListsRoots(src, roots, ps) && p != []
    ensures p in Keep(EntriesOf(src, ps)) <==> Reached(src, roots, p)
  {
    if p in Keep(EntriesOf(src, ps)) {
      KeptIsReached(src, roots, ps, p);
    }
    if Reached(src, roots, p) {
      ReachedIsKept(src, roots, ps, p);
    }
  }

  // ---- backup then restore ------------------------------------------------

  /** The artifact of a stack: one archive, admitted, whose extraction does not break. */
  function ArtifactOf(members: seq<RawEntry>): Archive {
    Archive(true, members, None)
  }

  lemma OneArchive(src: Snapshot, ps: seq<Path>, dest: Tree)
    requires ValidSnapshot(src) && Archivable(src, ps) && ps != []
    ensures var a := ArtifactOf(Members(src, ps));
            && AllEntries([a], Everything) == EntriesOf(src, ps)
            && ExtractRun(dest, [a], Everything) == ApplyAll(dest, EntriesOf(src, ps))
  {
    var a := ArtifactOf(Members(src, ps));
    assert [a][..0] == [];
    MembersSelectEntries(src, ps);
    assert Admitted(a);
  }

  /** Backup then restore: archiving a stack, whole or narrowed to volumes, and restoring
      it successfully over any destination makes the stack's directory exactly what the
      archive speaks of, as the snapshot has it, with nothing else in it but what cannot be
      removed; every path outside the stack is as it was. */
  lemma BackupThenRestore(src: Snapshot, stack: string, only: seq<Path>, ps: seq<Path>, dest: Tree, stuck: set<Path>,
                          p: Path)
    requires ValidSnapshot(src) && ListsRoots(src, Roots(stack, only), ps) && ps != []
    requires WellFormed(dest) && p != []
    requires !RestoreRun(dest, [ArtifactOf(Members(src, ps))], Everything, 1, stuck).report.Stopped?
    ensures var t' := RestoreRun(dest, [ArtifactOf(Members(src, ps))], Everything, 1, stuck).tree;
            if Covers([stack], p) then
              && (p in t' <==> Reached(src, Roots(stack, only), p) || (p in dest && Pinned(dest, p, stuck)))
              && (p in t' ==> if Reached(src, Roots(stack, only), p)
                              then AsInSnapshot(src, p, t'[p])
                              else t'[p] == dest[p])
            else
              && (p in t' <==> p in dest)
              && (p in t' ==> t'[p] == dest[p])
  {
    OneArchive(src, ps, dest);
    EntriesArePlain(src, Roots(stack, only), ps);
    ArchiveKeeps(src, Roots(stack, only), ps, p);
    if Reached(src, Roots(stack, only), p) {
      KeptAsInSnapshot(src, Roots(stack, only), ps, p);
    }
    FirstSegment(src, stack, only, ps, p);
    WholeRunRestore(dest, [ArtifactOf(Members(src, ps))], stuck, p);
  }

  lemma FirstSegment(src: Snapshot, stack: string, only: seq<Path>, ps: seq<Path>, p: Path)
    requires ValidSnapshot(src) && ListsRoots(src, Roots(stack, only), ps) && ps != [] && p != []
    ensures p[..1] in Keep(EntriesOf(src, ps)) <==> Covers([stack], p)
  {
    var es := EntriesOf(src, ps);
    KeepMeaning(es, p[..1]);
    StackOfEntry(src, stack, only, ps, 0);
    if Covers([stack], p) {
      assert p[..1] == [stack] && Covers(p[..1], es[0].path);
    }
    if i :| 0 <= i < |es| && Covers(p[..1], es[i].path) {
      StackOfEntry(src, stack, only, ps, i);
      assert p[..1][0] == es[i].path[0];
    }
  }

  lemma StackOfEntry(src: Snapshot, stack: string, only: seq<Path>, ps: seq<Path>, i: nat)
    requires ListsRoots(src, Roots(stack, only), ps) && i < |ps|
    ensures Covers([stack], ps[i])
  {
    assert ps[i] in ps;
    var r :| r in Roots(stack, only) && Covers(r, ps[i]);
    assert ps[i][0] == r[0] == stack;
  }

  /** The whole stack: backup then restore is the identity on its subtree, sockets
      excepted. */
  lemma WholeStackRoundTrip(src: Snapshot, stack: string, ps: seq<Path>, dest: Tree, p: Path)
    requires ValidSnapshot(src) && ListsRoots(src, Roots(stack, []), ps) && ps != []
    requires WellFormed(dest) && Covers([stack], p)
    requires !RestoreRun(dest, [ArtifactOf(Members(src, ps))], Everything, 1, {}).report.Stopped?
    ensures var t' := RestoreRun(dest, [ArtifactOf(Members(src, ps))], Everything, 1, {}).tree;
            && (p in t' <==> p in src && !src[p].ISocket?)
            && (p in t' ==> AsInSnapshot(src, p, t'[p]))
  {
    BackupThenRestore(src, stack, [], ps, dest, {}, p);
    assert [stack] in Roots(stack, []);
  }

  /** A narrowed archive restored without a filter empties the stack's other volumes: the
      scope of the prune is the stack's directory. */
  lemma NarrowedRestoreEmptiesSiblings(src: Snapshot, stack: string, only: seq<Path>, ps: seq<Path>, dest: Tree,
                                       p: Path)
    requires ValidSnapshot(src) && ListsRoots(src, Roots(stack, only), ps) && ps != []
    requires WellFormed(dest) && Covers([stack], p)
    requires only != [] && forall v :: v in only ==> !Covers([stack] + v, p) && !Covers(p, [stack] + v)
    requires !RestoreRun(dest, [ArtifactOf(Members(src, ps))], Everything, 1, {}).report.Stopped?
    ensures p !in RestoreRun(dest, [ArtifactOf(Members(src, ps))], Everything, 1, {}).tree
  {
    BackupThenRestore(src, stack, only, ps, dest, {}, p);
  }

  // ---- when a restore of an archive succeeds -------------------------------

  /** What stands at `q` lets the snapshot's entry in: a directory for a directory, a file
      for a file, and for a link anything with nothing below it. */
  ghost predicate Fits(t: Tree, src: Snapshot, q: Path)
    requires q in t && q in src
  {
    match src[q]
    case IDir => t[q] == Dir
    case IFile(_) => t[q].File?
    case ILink(_) => forall r :: r in t && Covers(q, r) ==> r == q
    case ISocket => true
    case ISpecial => true
  }

  /** Everything the archive speaks of fits. */
  ghost predicate NoConflict(t: Tree, src: Snapshot, roots: seq<Path>) {
    forall q :: q in t && q != [] && Reached(src, roots, q) ==> Fits(t, src, q)
  }

  lemma EntryKind(src: Snapshot, roots: seq<Path>, ps: seq<Path>, i: nat)
    requires ValidSnapshot(src) && ListsRoots(src, roots, ps) && i < |ps|
    ensures !src[ps[i]].ISpecial? && Reached(src, roots, ps[i]) && (ps[i] != [] ==> !Escapes(ps[i]))
  {
    assert ps[i] in ps;
    if ps[i] != [] {
      assert Normal(ps[i][0]);
    }
  }

  lemma AncestorReached(src: Snapshot, roots: seq<Path>, p: Path, q: Path)
    requires ValidSnapshot(src) && Reached(src, roots, p) && Covers(q, p) && q != p
    ensures Reached(src, roots, q) && src[q].IDir?
  {
    SnapshotAncestors(src, p, q);
    var r :| r in roots && (Covers(r, p) || (Covers(p, r) && r in src && !src[r].ISocket?));
    if Covers(r, p) {
      Comparable(q, r, p);
      if r != p {
        SnapshotAncestors(src, p, r);
      }
    } else {
      CoversTransitive(q, p, r);
    }
  }

  lemma OpenForEntry(t: Tree, src: Snapshot, roots: seq<Path>, p: Path)
    requires ValidSnapshot(src) && WellFormed(t) && t[[]] == Dir && NoConflict(t, src, roots) && Reached(src, roots, p)
    ensures OpenAbove(t, p)
  {
    forall q | q in t && Covers(q, p) && q != p
      ensures t[q] == Dir
    {
      AncestorReached(src, roots, p, q);
      assert q != [] ==> Fits(t, src, q);
    }
  }

  lemma BareForLink(t: Tree, p: Path)
    requires WellFormed(t) && (p in t ==> forall q :: q in t && Covers(p, q) ==> q == p)
    ensures forall q :: q in t && Covers(p, q) ==> q == p
  {
    forall q | q in t && Covers(p, q)
      ensures q == p
    {
      if q != p {
        AncestorsAreDirs(t, q, p);
      }
    }
  }

  lemma EntryApplies(t: Tree, src: Snapshot, roots: seq<Path>, p: Path)
    requires ValidSnapshot(src) && WellFormed(t) && t[[]] == Dir && NoConflict(t, src, roots)
    requires p != [] && Reached(src, roots, p) && !src[p].ISpecial?
    ensures ApplyEntry(t, Entry(p, KindOf(src[p]))).Ok?
  {
    EntrySucceedsIff(t, Entry(p, KindOf(src[p])));
    assert Normal(p[0]);
    OpenForEntry(t, src, roots, p);
    assert p in t ==> Fits(t, src, p);
    if src[p].ILink? {
      BareForLink(t, p);
    }
  }

  lemma StillNoConflict(t: Tree, t': Tree, src: Snapshot, roots: seq<Path>, p: Path)
    requires ValidSnapshot(src) && WellFormed(t) && t[[]] == Dir && NoConflict(t, src, roots) && WellFormed(t')
    requires p != [] && Reached(src, roots, p) && !src[p].ISpecial?
    requires Placed(t, t', p, NodeOf(KindOf(src[p])))
    ensures NoConflict(t', src, roots) && t'[[]] == Dir
  {
    assert Covers([], p) && [] != p;
    forall q | q in t' && q != [] && Reached(src, roots, q)
      ensures Fits(t', src, q)
    {
      if Covers(q, p) && q != p {
        AncestorReached(src, roots, p, q);
      } else if src[q].ILink? {
        LinkStaysBare(t, t', src, p, q);
      } else if q != p {
        assert Fits(t, src, q);
      }
    }
  }

  lemma LinkCoversOnlyItself(src: Snapshot, p: Path, q: Path, r: Path)
    requires ValidSnapshot(src) && p in src && q in src && src[q].ILink? && Covers(q, r) && Covers(r, p)
    ensures q == r == p
  {
    CoversTransitive(q, r, p);
    if q != p {
      SnapshotAncestors(src, p, q);
    }
  }

  lemma LinkStaysBare(t: Tree, t': Tree, src: Snapshot, p: Path, q: Path)
    requires ValidSnapshot(src) && p in src && q in src && src[q].ILink? && !src[p].ISocket? && !src[p].ISpecial?
    requires Placed(t, t', p, NodeOf(KindOf(src[p]))) && WellFormed(t') && q in t'
    requires q in t && q != p ==> Fits(t, src, q)
    ensures Fits(t', src, q)
  {
    if q == p {
      FileHasNoChildren(t', q);
    } else {
      forall r | r in t' && Covers(q, r)
        ensures r == q
      {
        if Covers(r, p) {
          LinkCoversOnlyItself(src, p, q, r);
        } else if Covers(q, p) {
          LinkCoversOnlyItself(src, p, q, q);
        }
      }
    }
  }

  lemma {:induction false} NoConflictExtracts(t: Tree, src: Snapshot, roots: seq<Path>, ps: seq<Path>)
    requires ValidSnapshot(src) && WellFormed(t) && t[[]] == Dir && NoConflict(t, src, roots) && Archivable(src, ps)
    requires forall i :: 0 <= i < |ps| ==> ps[i] != [] && Reached(src, roots, ps[i]) && !src[ps[i]].ISpecial?
    ensures var o := ApplyAll(t, EntriesOf(src, ps));
            o.Ok? && WellFormed(o.tree) && o.tree[[]] == Dir && NoConflict(o.tree, src, roots)
  {
    if ps != [] {
      var init, p := ps[..|ps| - 1], ps[|ps| - 1];
      NoConflictExtracts(t, src, roots, init);
      LastEntry(src, ps, t);
      var m, e := ApplyAll(t, EntriesOf(src, init)).tree, Entry(p, KindOf(src[p]));
      EntryApplies(m, src, roots, p);
      EntryEffect(m, e);
      StillNoConflict(m, ApplyEntry(m, e).tree, src, roots, p);
    }
  }

  lemma LastEntry(src: Snapshot, ps: seq<Path>, t: Tree)
    requires Archivable(src, ps) && ps != []
    ensures var p, es := ps[|ps| - 1], EntriesOf(src, ps[..|ps| - 1]);
            ApplyAll(t, es).Ok? ==>
              ApplyAll(t, EntriesOf(src, ps)) == ApplyEntry(ApplyAll(t, es).tree, Entry(p, KindOf(src[p])))
  {
    var es := EntriesOf(src, ps);
    assert es[..|es| - 1] == EntriesOf(src, ps[..|ps| - 1]);
  }

  /** An entry that was applied found what it needed. */
  lemma AppliedFits(m: Tree, src: Snapshot, p: Path, q: Path)
    requires ValidSnapshot(src) && WellFormed(m) && p in src && !src[p].ISocket? && !src[p].ISpecial?
    requires ApplyEntry(m, Entry(p, KindOf(src[p]))).Ok? && q in m && Covers(q, p)
    ensures q in src && Fits(m, src, q)
  {
    EntrySucceedsIff(m, Entry(p, KindOf(src[p])));
    if q != p {
      SnapshotAncestors(src, p, q);
    }
  }

  lemma FitsBefore(t: Tree, m: Tree, src: Snapshot, q: Path)
    requires q in t && q in m && q in src && t[q] == m[q] && Fits(m, src, q) && forall r :: r in t ==> r in m
    ensures Fits(t, src, q)
  {
  }

  lemma {:induction false} ExtractedFits(t: Tree, src: Snapshot, ps: seq<Path>, q: Path)
    requires ValidSnapshot(src) && WellFormed(t) && Archivable(src, ps)
    requires forall i :: 0 <= i < |ps| ==> !src[ps[i]].ISpecial?
    requires ApplyAll(t, EntriesOf(src, ps)).Ok? && q in t && q in Keep(EntriesOf(src, ps))
    ensures q in src && Fits(t, src, q)
  {
    var init, p := ps[..|ps| - 1], ps[|ps| - 1];
    var es := EntriesOf(src, init);
    assert EntriesOf(src, ps)[..|ps| - 1] == es;
    if q in Keep(es) {
      ExtractedFits(t, src, init, q);
    } else {
      ExtractionIsAdditive(t, es);
      var m := ApplyAll(t, es).tree;
      assert m[q] == t[q];
      AppliedFits(m, src, p, q);
      FitsBefore(t, m, src, q);
    }
  }

  lemma {:induction false} CountsFiles(src: Snapshot, ps: seq<Path>)
    requires Archivable(src, ps)
    ensures Count(EntriesOf(src, ps)) >= RegularFiles(src, ps)
  {
    if ps != [] {
      var es := EntriesOf(src, ps);
      CountsFiles(src, ps[..|ps| - 1]);
      assert es[..|es| - 1] == EntriesOf(src, ps[..|ps| - 1]);
    }
  }

  lemma ConflictStops(src: Snapshot, roots: seq<Path>, ps: seq<Path>, dest: Tree)
    requires ValidSnapshot(src) && ListsRoots(src, roots, ps) && WellFormed(dest)
    requires ApplyAll(dest, EntriesOf(src, ps)).Ok?
    ensures NoConflict(dest, src, roots)
  {
    forall q | q in dest && q != [] && Reached(src, roots, q)
      ensures Fits(dest, src, q)
    {
      ArchiveKeeps(src, roots, ps, q);
      ExtractedFits(dest, src, ps, q);
    }
  }

  /** When the restore of a stack's archive succeeds: exactly when whatever stands in the
      destination where the archive speaks is of the same kind, a directory for a directory
      and a file for a file, and nothing lies below where a link is to be. */
  lemma RestoreSucceedsIff(src: Snapshot, stack: string, only: seq<Path>, ps: seq<Path>, dest: Tree, stuck: set<Path>)
    requires ValidSnapshot(src) && ListsRoots(src, Roots(stack, only), ps) && RegularFiles(src, ps) > 0
    requires WellFormed(dest) && dest[[]] == Dir
    ensures var r := RestoreRun(dest, [ArtifactOf(Members(src, ps))], Everything, 1, stuck).report;
            && (r.Restored? <==> NoConflict(dest, src, Roots(stack, only)))
            && (r.Stopped? <==> !NoConflict(dest, src, Roots(stack, only)))
  {
    OneArchive(src, ps, dest);
    CountsFiles(src, ps);
    if NoConflict(dest, src, Roots(stack, only)) {
      forall i | 0 <= i < |ps|
        ensures ps[i] != [] && Reached(src, Roots(stack, only), ps[i]) && !src[ps[i]].ISpecial?
      {
        StackOfEntry(src, stack, only, ps, i);
        EntryKind(src, Roots(stack, only), ps, i);
      }
      NoConflictExtracts(dest, src, Roots(stack, only), ps);
    }
    if ApplyAll(dest, EntriesOf(src, ps)).Ok? {
      ConflictStops(src, Roots(stack, only), ps, dest);
    }
  }

  /** An artifact the agent keeps (it holds a regular file) restores with success over any
      destination that has nothing at the stack's place. */
  lemma RestoreOverAbsentStackSucceeds(src: Snapshot, stack: string, only: seq<Path>, ps: seq<Path>, dest: Tree,
                                       stuck: set<Path>)
    requires ValidSnapshot(src) && ListsRoots(src, Roots(stack, only), ps) && RegularFiles(src, ps) > 0
    requires WellFormed(dest) && dest[[]].Dir? && forall q :: q in dest ==> !Covers([stack], q)
    ensures RestoreRun(dest, [ArtifactOf(Members(src, ps))], Everything, 1, stuck).report.Restored?
  {
    forall q | q != [] && Reached(src, Roots(stack, only), q)
      ensures Covers([stack], q)
    {
      var r :| r in Roots(stack, only) && (Covers(r, q) || Covers(q, r));
      assert q[0] == r[0] == stack;
    }
    RestoreSucceedsIff(src, stack, only, ps, dest, stuck);
  }

  // ---- the agent's own step -----------------------------------------------

  lemma {:induction false} SomeRegularFile(src: Snapshot, ps: seq<Path>)
    requires Archivable(src, ps)
    ensures RegularFiles(src, ps) > 0 <==> exists p :: p in ps && src[p].IFile?
  {
    if ps != [] {
      var init, last := ps[..|ps| - 1], ps[|ps| - 1];
      SomeRegularFile(src, init);
      assert forall p :: p in ps <==> p in init || p == last;
    }
  }

  ghost predicate AllInside(src: Snapshot, walks: seq<seq<Path>>) {
    forall i :: 0 <= i < |walks| ==> Inside(src, walks[i])
  }

  /** The archived paths of all roots, one root after the other. */
  function AllSockless(src: Snapshot, walks: seq<seq<Path>>): seq<Path>
    requires AllInside(src, walks)
  {
    if walks == [] then []
    else
      AllSockless(src, walks[..|walks| - 1]) + Sockless(src, walks[|walks| - 1])
  }

  /** The walks of the roots, sockets left out, list what lies below the roots. */
  lemma {:induction false} WalksListRoots(src: Snapshot, roots: seq<Path>, walks: seq<seq<Path>>)
    requires AreWalks(src, roots, walks)
    ensures AllInside(src, walks)
    ensures Archivable(src, AllSockless(src, walks))
    ensures forall p :: p in AllSockless(src, walks) <==> p in src && Under(roots, p) && !src[p].ISocket?
  {
    if walks != [] {
      var n := |walks| - 1;
      WalksListRoots(src, roots[..n], walks[..n]);
      SocklessIsArchivable(src, walks[n]);
      forall p
        ensures Under(roots, p) <==> Under(roots[..n], p) || Covers(roots[n], p)
      {
        UnderOneMore(roots, p);
      }
    }
  }

  lemma UnderOneMore(roots: seq<Path>, p: Path)
    requires roots != []
    ensures Under(roots, p) <==> Under(roots[..|roots| - 1], p) || Covers(roots[|roots| - 1], p)
  {
    assert forall r :: r in roots <==> r in roots[..|roots| - 1] || r == roots[|roots| - 1];
  }

  /** `archiveStack`'s report. The archive is what stays on disk. */
  datatype StackReport = StackReport(ok: bool, empty: bool, archive: Option<Archive>, verified: bool)

  /** What happens outside the model: the tar stream is written without an error, the
      archive verifies, the sidecar is written. */
  datatype Circumstances = Circumstances(writes: bool, verifies: bool, sidecarWrites: bool)

  /** The run of the tar writer over the roots: a missing root stops it. */
  method WriteTar(src: Snapshot, roots: seq<Path>, walks: seq<seq<Path>>)
    returns (ok: bool, members: seq<RawEntry>, files: nat)
    requires |walks| == |roots| && AllInside(src, walks)
    ensures ok <==> forall r :: r in roots ==> r in src
    ensures ok ==> Tarred(src, AllSockless(src, walks), members, files)
  {
    ok, members, files := true, [], 0;
    for i := 0 to |roots|
      invariant forall j :: 0 <= j < i ==> roots[j] in src
      invariant Tarred(src, AllSockless(src, walks[..i]), members, files)
    {
      if roots[i] !in src {
        assert roots[i] in roots;
        return false, members, files;
      }
      var more, n := AddTree(src, walks[i]);
      TarOneMore(src, walks, i, members, files, more, n);
      members, files := members + more, files + n;
    }
    assert walks[..|roots|] == walks;
  }

  /** What the tar writer has written for these paths. */
  ghost predicate Tarred(src: Snapshot, ps: seq<Path>, members: seq<RawEntry>, files: nat) {
    Archivable(src, ps) && members == Members(src, ps) && files == RegularFiles(src, ps)
  }

  lemma TarOneMore(src: Snapshot, walks: seq<seq<Path>>, i: nat, members: seq<RawEntry>, files: nat,
                   more: seq<RawEntry>, n: nat)
    requires AllInside(src, walks) && i < |walks|
    requires Tarred(src, AllSockless(src, walks[..i]), members, files) && Tarred(src, Sockless(src, walks[i]), more, n)
    ensures Tarred(src, AllSockless(src, walks[..i + 1]), members + more, files + n)
  {
    assert walks[..i + 1][..i] == walks[..i];
    RegularFilesConcat(src, AllSockless(src, walks[..i]), Sockless(src, walks[i]));
  }

  lemma {:induction false} RegularFilesConcat(src: Snapshot, ps: seq<Path>, qs: seq<Path>)
    requires Archivable(src, ps) && Archivable(src, qs)
    ensures Archivable(src, ps + qs) && RegularFiles(src, ps + qs) == RegularFiles(src, ps) + RegularFiles(src, qs)
    ensures Members(src, ps + qs) == Members(src, ps) + Members(src, qs)
    decreases |qs|
  {
    if qs == [] {
      assert ps + qs == ps;
    } else {
      assert (ps + qs)[..|ps + qs| - 1] == ps + qs[..|qs| - 1];
      RegularFilesConcat(src, ps, qs[..|qs| - 1]);
    }
  }

  /** A root holds a regular file. */
  ghost predicate HoldsFile(src: Snapshot, roots: seq<Path>) {
    exists p :: p in src && Under(roots, p) && src[p].IFile?
  }

  /** `archiveStack`: a stack or a volume that is missing fails, roots without a regular
      file yield no artifact, and any other yields the archive of exactly what lies below
      them. The archive stays when it does not verify or its sidecar cannot be written, and
      the report is green only if neither happened. */
  method ArchiveStack(src: Snapshot, stack: string, only: seq<Path>, walks: seq<seq<Path>>, around: Circumstances)
    returns (report: StackReport)
    requires AreWalks(src, Roots(stack, only), walks)
    ensures AllInside(src, walks)
    ensures Archivable(src, AllSockless(src, walks))
    ensures var written := && [stack] in src && src[[stack]].IDir? && around.writes
                           && forall r :: r in Roots(stack, only) ==> r in src;
            && (report.archive.Some? <==> written && HoldsFile(src, Roots(stack, only)))
            && (report.empty <==> written && !HoldsFile(src, Roots(stack, only)))
    ensures report.archive.Some? ==> report.archive.value == ArtifactOf(Members(src, AllSockless(src, walks)))
    ensures report.verified <==> report.archive.Some? && around.verifies
    ensures report.ok <==> report.empty || (report.verified && around.sidecarWrites)
  {
    WalksListRoots(src, Roots(stack, only), walks);
    report := StackReport(false, false, None, false);
    if [stack] !in src || !src[[stack]].IDir? {
      return;
    }
    var ok, members, files := WriteTar(src, Roots(stack, only), walks);
    if !ok || !around.writes {
      return;
    }
    SomeRegularFile(src, AllSockless(src, walks));
    if files == 0 {
      report := StackReport(true, true, None, false);
    } else {
      report := StackReport(around.verifies && around.sidecarWrites, false, Some(ArtifactOf(members)), around.verifies);
    }
  }

  /** What the walks list, when no device lies below the roots, is what the round trip
      speaks of. */
  lemma WalksGiveListing(src: Snapshot, roots: seq<Path>, walks: seq<seq<Path>>)
    requires AreWalks(src, roots, walks) && forall p :: p in src && Under(roots, p) ==> !src[p].ISpecial?
    ensures AllInside(src, walks)
    ensures ListsRoots(src, roots, AllSockless(src, walks))
  {
    WalksListRoots(src, roots, walks);
    var ps := AllSockless(src, walks);
    forall i | 0 <= i < |ps|
      ensures !src[ps[i]].ISpecial?
    {
      assert ps[i] in ps;
    }
  }
}
