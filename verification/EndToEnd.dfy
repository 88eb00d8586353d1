/** The pipeline with what the files hold: from a stack's snapshot to its restore. */
module EndToEnd {
  import opened Artifacts
  import opened Common
  import opened Tree
  import opened Restore
  import opened Backup
  import V = Volume
  import P = Pipeline
  import B = SharedBucket

  // ---- one stack, archived and restored -----------------------------------

  /** What restoring the archive of a stack does to a path of a destination. */
  ghost predicate RestoredAt(src: Snapshot, stack: string, only: seq<Path>, dest: Tree, stuck: set<Path>, t: Tree,
                             p: Path) {
    if Covers([stack], p) then
      && (p in t <==> Reached(src, Roots(stack, only), p) || (p in dest && Pinned(dest, p, stuck)))
      && (p in t ==> if Reached(src, Roots(stack, only), p) then AsInSnapshot(src, p, t[p])
                     else p in dest && t[p] == dest[p])
    else
      (p in t <==> p in dest) && (p in t ==> t[p] == dest[p])
  }

  lemma ArchiveRestores(src: Snapshot, stack: string, only: seq<Path>, ps: seq<Path>, dest: Tree, stuck: set<Path>,
                        p: Path)
    requires ValidSnapshot(src) && ListsRoots(src, Roots(stack, only), ps) && ps != []
    requires WellFormed(dest) && p != []
    requires !RestoreRun(dest, [ArtifactOf(Members(src, ps))], Everything, 1, stuck).report.Stopped?
    ensures RestoredAt(src, stack, only, dest, stuck,
                       RestoreRun(dest, [ArtifactOf(Members(src, ps))], Everything, 1, stuck).tree, p)
  {
    BackupThenRestore(src, stack, only, ps, dest, stuck, p);
  }

  /** The agent archives a stack, and the restore runs on what it wrote. A stack that
      yields no archive leaves the destination alone; otherwise a restore that is not
      stopped makes the stack's directory what the archive speaks of, and over a
      destination without the stack it always succeeds. */
  method ArchiveThenRestore(src: Snapshot, stack: string, only: seq<Path>, walks: seq<seq<Path>>, around: Circumstances,
                            target: V.RestoreTarget, stuck: set<Path>)
    returns (backup: StackReport, restore: Report)
    requires ValidSnapshot(src) && AreWalks(src, Roots(stack, only), walks)
    requires forall p :: p in src && Under(Roots(stack, only), p) ==> !src[p].ISpecial?
    requires WellFormed(target.tree)
    modifies target
    ensures backup.archive.Some? <==>
            && [stack] in src && src[[stack]].IDir? && around.writes
            && (forall r :: r in Roots(stack, only) ==> r in src) && HoldsFile(src, Roots(stack, only))
    ensures backup.archive.None? ==> restore.Stopped? && target.tree == old(target.tree)
    ensures backup.archive.Some? && old(target.tree)[[]] == Dir ==>
              (restore.Restored? <==> NoConflict(old(target.tree), src, Roots(stack, only)))
    ensures backup.archive.Some? && !restore.Stopped? ==>
              forall p :: p != [] ==> RestoredAt(src, stack, only, old(target.tree), stuck, target.tree, p)
    ensures backup.archive.Some? && old(target.tree)[[]].Dir?
            && (forall q :: q in old(target.tree) ==> !Covers([stack], q)) ==>
              restore.Restored?
  {
    backup := ArchiveStack(src, stack, only, walks, around);
    restore := Stopped;
    if backup.archive.None? {
      return;
    }
    ghost var dest, ps := target.tree, AllSockless(src, walks);
    WalksGiveListing(src, Roots(stack, only), walks);
    FileIsListed(src, stack, only, walks);
    restore := target.Run([backup.archive.value], None, None, stuck);
    if !restore.Stopped? {
      forall p | p != []
        ensures RestoredAt(src, stack, only, dest, stuck, target.tree, p)
      {
        ArchiveRestores(src, stack, only, ps, dest, stuck, p);
      }
    }
    if dest[[]].Dir? {
      RestoreSucceedsIff(src, stack, only, ps, dest, stuck);
      if forall q :: q in dest ==> !Covers([stack], q) {
        RestoreOverAbsentStackSucceeds(src, stack, only, ps, dest, stuck);
      }
    }
  }

  lemma FileIsListed(src: Snapshot, stack: string, only: seq<Path>, walks: seq<seq<Path>>)
    requires AreWalks(src, Roots(stack, only), walks) && HoldsFile(src, Roots(stack, only))
    ensures AllInside(src, walks) && Archivable(src, AllSockless(src, walks))
    ensures AllSockless(src, walks) != [] && RegularFiles(src, AllSockless(src, walks)) > 0
  {
    WalksListRoots(src, Roots(stack, only), walks);
    var p :| p in src && Under(Roots(stack, only), p) && src[p].IFile?;
    assert p in AllSockless(src, walks);
    SomeRegularFile(src, AllSockless(src, walks));
  }

  // ---- the pipeline with contents -----------------------------------------

  /** Where an artifact comes from: a snapshot, what was asked for, and the paths listed. */
  datatype Origin = Origin(src: Snapshot, only: seq<Path>, ps: seq<Path>)

  ghost predicate ValidOrigin(o: Origin, stack: string) {
    ValidSnapshot(o.src) && ListsRoots(o.src, Roots(stack, o.only), o.ps) && RegularFiles(o.src, o.ps) > 0
  }

  ghost function Bytes(o: Origin): Archive
    requires Archivable(o.src, o.ps)
  {
    ArtifactOf(Members(o.src, o.ps))
  }

  /** A pipeline state and what each file on each disk and each object holds. `taken`
      records where each complete artifact came from. */
  datatype World = World(st: P.State, disks: map<string, map<Artifact, Archive>>, legs: seq<map<Artifact, Archive>>,
                         taken: map<Artifact, Origin>)

  /** A pipeline event; a write comes with its origin, a torn one with whatever it left. */
  datatype Move = Move(event: P.Event, origin: Origin, scrap: Archive)

  /** A write starts from a snapshot and under a name of its own; an upload that stores
      something reads the file it sends. */
  ghost predicate Enabled(w: World, m: Move) {
    && P.Enabled(w.st, m.event)
    && (m.event.Write? ==> ValidOrigin(m.origin, m.event.a.stack) && m.event.a !in w.st.nodes[m.event.n].written)
    && (m.event.ArchivePut? && m.event.stored ==> w.st.nodes[m.event.n].phase.a in w.st.nodes[m.event.n].disk)
  }

  /** The contents follow the names. */
  ghost predicate Shaped(w: World) {
    && w.disks.Keys == w.st.nodes.Keys && |w.legs| == |w.st.legs|
    && (forall n :: n in w.disks ==> w.disks[n].Keys == w.st.nodes[n].disk)
    && (forall i :: 0 <= i < |w.legs| ==> w.legs[i].Keys == w.st.legs[i].store.objects)
  }

  ghost function DisksAfter(w: World, m: Move): map<string, map<Artifact, Archive>>
    requires Shaped(w) && Enabled(w, m)
  {
    match m.event
    case Write(n, a, _) => w.disks[n := w.disks[n][a := Bytes(m.origin)]]
    case Tear(n, a) => w.disks[n := w.disks[n][a := m.scrap]]
    case RemoveOlder(n, b) => w.disks[n := w.disks[n] - {b}]
    case RemoveOwn(n) => w.disks[n := w.disks[n] - {w.st.nodes[n].phase.a}]
    case LocalDelete(n, b) => w.disks[n := w.disks[n] - {b}]
    case _ => w.disks
  }

  ghost function LegsAfter(w: World, m: Move): seq<map<Artifact, Archive>>
    requires Shaped(w) && Enabled(w, m)
  {
    match m.event
    case ArchivePut(n, stored, _) =>
      var ph := w.st.nodes[n].phase;
      if stored then w.legs[ph.leg := w.legs[ph.leg][ph.a := w.disks[n][ph.a]]] else w.legs
    case Remote(i, event) => if event.Delete? then w.legs[i := w.legs[i] - {event.a}] else w.legs
    case _ => w.legs
  }

  ghost function Step(w: World, m: Move): World
    requires Shaped(w) && Enabled(w, m)
  {
    World(P.Step(w.st, m.event), DisksAfter(w, m), LegsAfter(w, m),
          if m.event.Write? then w.taken[m.event.a := m.origin] else w.taken)
  }

  lemma DiskFollows(w: World, m: Move, n: string)
    requires Shaped(w) && Enabled(w, m) && n in w.disks
    ensures n in P.Step(w.st, m.event).nodes && n in DisksAfter(w, m)
    ensures DisksAfter(w, m)[n].Keys == P.Step(w.st, m.event).nodes[n].disk
  {
    if TouchesDisk(m.event) {
      DiskFollowsChange(w, m, n);
    } else {
      DiskUntouched(w.st, m.event, n);
    }
  }

  predicate TouchesDisk(e: P.Event) {
    e.Write? || e.Tear? || e.RemoveOlder? || e.RemoveOwn? || e.LocalDelete?
  }

  lemma DiskUntouched(st: P.State, e: P.Event, n: string)
    requires P.Enabled(st, e) && n in st.nodes && !TouchesDisk(e)
    ensures n in P.Step(st, e).nodes && P.Step(st, e).nodes[n].disk == st.nodes[n].disk
  {
  }

  lemma DiskFollowsChange(w: World, m: Move, n: string)
    requires Shaped(w) && Enabled(w, m) && n in w.disks && TouchesDisk(m.event)
    ensures n in P.Step(w.st, m.event).nodes && n in DisksAfter(w, m)
    ensures DisksAfter(w, m)[n].Keys == P.Step(w.st, m.event).nodes[n].disk
  {
  }

  lemma LegFollows(w: World, m: Move, i: nat)
    requires Shaped(w) && Enabled(w, m) && i < |w.legs|
    ensures |P.Step(w.st, m.event).legs| == |LegsAfter(w, m)| == |w.legs|
    ensures LegsAfter(w, m)[i].Keys == P.Step(w.st, m.event).legs[i].store.objects
  {
  }

  lemma SameNodes(w: World, m: Move)
    requires Shaped(w) && Enabled(w, m)
    ensures P.Step(w.st, m.event).nodes.Keys == w.st.nodes.Keys == DisksAfter(w, m).Keys
    ensures |P.Step(w.st, m.event).legs| == |w.st.legs| == |LegsAfter(w, m)|
  {
  }

  lemma StepKeepsShape(w: World, m: Move)
    requires Shaped(w) && Enabled(w, m)
    ensures Shaped(Step(w, m))
  {
    var w' := Step(w, m);
    SameNodes(w, m);
    forall n | n in w'.disks
      ensures w'.disks[n].Keys == w'.st.nodes[n].disk
    {
      DiskFollows(w, m, n);
    }
    forall i | 0 <= i < |w'.legs|
      ensures w'.legs[i].Keys == w'.st.legs[i].store.objects
    {
      LegFollows(w, m, i);
    }
  }

  // ---- every copy is what was written -------------------------------------

  /** `x` is what was written under the name. */
  ghost predicate Genuine(w: World, a: Artifact, x: Archive) {
    a in w.taken && ValidOrigin(w.taken[a], a.stack) && x == Bytes(w.taken[a])
  }

  ghost predicate DiskIntact(w: World, n: string) {
    n in w.disks && n in w.st.nodes &&
    forall a :: a in w.disks[n] && a in w.st.nodes[n].written ==> Genuine(w, a, w.disks[n][a])
  }

  ghost predicate LegIntact(w: World, i: nat) {
    i < |w.legs| && forall a :: a in w.legs[i] ==> Genuine(w, a, w.legs[i][a])
  }

  /** Every file and every object under a complete artifact's name holds what was written. */
  ghost predicate Intact(w: World) {
    && P.Inv(w.st) && Shaped(w)
    && (forall n :: n in w.st.nodes ==> DiskIntact(w, n))
    && (forall i :: 0 <= i < |w.legs| ==> LegIntact(w, i))
  }

  lemma GenuineStays(w: World, m: Move, a: Artifact, x: Archive)
    requires Shaped(w) && Enabled(w, m) && Genuine(w, a, x) && (m.event.Write? ==> m.event.a != a)
    ensures Genuine(Step(w, m), a, x)
  {
  }

  /** A write under a new name meets no object of that name anywhere. */
  lemma NewNameIsNowhere(w: World, m: Move, i: nat)
    requires Intact(w) && Enabled(w, m) && m.event.Write? && i < |w.legs|
    ensures m.event.a !in w.legs[i]
  {
    assert P.LegInv(w.st, w.st.legs[i]);
  }

  lemma WrittenBefore(st: P.State, e: P.Event, n: string, a: Artifact)
    requires P.Enabled(st, e) && n in st.nodes && n in P.Step(st, e).nodes && a in P.Step(st, e).nodes[n].written
    ensures a in st.nodes[n].written || (e.Write? && e.n == n && e.a == a)
  {
  }

  /** No write, complete or torn, goes over the file of a complete artifact. */
  lemma OldContent(w: World, m: Move, n: string, a: Artifact)
    requires Shaped(w) && Enabled(w, m) && n in w.st.nodes && a in w.st.nodes[n].written
    requires n in DisksAfter(w, m) && a in DisksAfter(w, m)[n]
    ensures a in w.disks[n] && DisksAfter(w, m)[n][a] == w.disks[n][a]
  {
  }

  lemma DiskStaysIntact(w: World, m: Move, n: string)
    requires Intact(w) && Enabled(w, m) && n in w.st.nodes
    ensures DiskIntact(Step(w, m), n)
  {
    var w' := Step(w, m);
    DiskFollows(w, m, n);
    forall a | a in w'.disks[n] && a in w'.st.nodes[n].written
      ensures Genuine(w', a, w'.disks[n][a])
    {
      WrittenBefore(w.st, m.event, n, a);
      if a in w.st.nodes[n].written {
        OldContent(w, m, n, a);
        OldGenuineStays(w, m, n, a);
      }
    }
  }

  lemma OldGenuineStays(w: World, m: Move, n: string, a: Artifact)
    requires Intact(w) && Enabled(w, m) && n in w.st.nodes && a in w.st.nodes[n].written && a in w.disks[n]
    ensures Genuine(Step(w, m), a, w.disks[n][a])
  {
    assert P.NodeInv(w.st, n, w.st.nodes[n]) && DiskIntact(w, n);
    GenuineStays(w, m, a, w.disks[n][a]);
  }

  /** What a step leaves in a destination: what was there, or a node's own complete file. */
  lemma LegContent(w: World, m: Move, i: nat, a: Artifact)
    requires Intact(w) && Enabled(w, m) && i < |w.legs| && i < |LegsAfter(w, m)| && a in LegsAfter(w, m)[i]
    ensures m.event.Write? ==> a in w.legs[i] && LegsAfter(w, m)[i][a] == w.legs[i][a]
    ensures || (a in w.legs[i] && LegsAfter(w, m)[i][a] == w.legs[i][a])
            || (exists n :: n in w.disks && n in w.st.nodes && a in w.disks[n] && a in w.st.nodes[n].written
                            && LegsAfter(w, m)[i][a] == w.disks[n][a])
  {
    if m.event.ArchivePut? && m.event.stored {
      var n := m.event.n;
      assert P.NodeInv(w.st, n, w.st.nodes[n]);
      assert n in w.disks;
    }
  }

  lemma LegStaysIntact(w: World, m: Move, i: nat)
    requires Intact(w) && Enabled(w, m) && i < |w.legs|
    ensures LegIntact(Step(w, m), i)
  {
    var w' := Step(w, m);
    LegFollows(w, m, i);
    if m.event.Write? {
      NewNameIsNowhere(w, m, i);
    }
    forall a | a in w'.legs[i]
      ensures Genuine(w', a, w'.legs[i][a])
    {
      LegContent(w, m, i, a);
      assert LegIntact(w, i);
      if !(a in w.legs[i] && w'.legs[i][a] == w.legs[i][a]) {
        var n :| n in w.disks && n in w.st.nodes && a in w.disks[n] && a in w.st.nodes[n].written
                 && w'.legs[i][a] == w.disks[n][a];
        assert DiskIntact(w, n);
      }
      GenuineStays(w, m, a, w'.legs[i][a]);
    }
  }

  lemma StepKeepsIntact(w: World, m: Move)
    requires Intact(w) && Enabled(w, m)
    ensures Intact(Step(w, m))
  {
    P.StepKeepsInv(w.st, m.event);
    StepKeepsShape(w, m);
    SameNodes(w, m);
    forall n | n in w.st.nodes
      ensures DiskIntact(Step(w, m), n)
    {
      DiskStaysIntact(w, m, n);
    }
    forall i | 0 <= i < |w.legs|
      ensures LegIntact(Step(w, m), i)
    {
      LegStaysIntact(w, m, i);
    }
  }

  // ---- runs ---------------------------------------------------------------

  ghost predicate Init(w: World) {
    && P.Init(w.st) && Shaped(w) && w.taken == map[]
  }

  ghost predicate Runs(w: World, moves: seq<Move>)
    requires Shaped(w)
    decreases |moves|
  {
    moves == [] || (Enabled(w, moves[0]) && (StepKeepsShape(w, moves[0]); Runs(Step(w, moves[0]), moves[1..])))
  }

  ghost function After(w: World, moves: seq<Move>): World
    requires Shaped(w) && Runs(w, moves)
    decreases |moves|
  {
    if moves == [] then w else (StepKeepsShape(w, moves[0]); After(Step(w, moves[0]), moves[1..]))
  }

  ghost function Events(moves: seq<Move>): seq<P.Event> {
    if moves == [] then [] else [moves[0].event] + Events(moves[1..])
  }

  /** A run with contents is a run of the pipeline, and keeps every copy intact. */
  lemma {:induction false} RunKeepsIntact(w: World, moves: seq<Move>)
    requires Intact(w) && Runs(w, moves)
    ensures Intact(After(w, moves))
    ensures P.Runs(w.st, Events(moves)) && P.After(w.st, Events(moves)) == After(w, moves).st
    decreases |moves|
  {
    if moves != [] {
      StepKeepsIntact(w, moves[0]);
      RunKeepsIntact(Step(w, moves[0]), moves[1..]);
      assert Events(moves)[1..] == Events(moves[1..]);
    }
  }

  lemma InitIsIntact(w: World)
    requires Init(w)
    ensures Intact(w)
  {
    P.InitIsInv(w.st);
  }

  /** The copies of an artifact: on its node, and in each destination. */
  ghost function Copies(w: World, a: Artifact): set<Archive>
    requires Shaped(w)
  {
    (if a.node in w.disks && a in w.disks[a.node] then {w.disks[a.node][a]} else {})
    + set i | 0 <= i < |w.legs| && a in w.legs[i] :: w.legs[i][a]
  }

  lemma CopiesAreGenuine(w: World, a: Artifact, x: Archive)
    requires Intact(w) && a.node in w.st.nodes && a in w.st.nodes[a.node].written && x in Copies(w, a)
    ensures Genuine(w, a, x)
  {
    assert DiskIntact(w, a.node);
    if i :| 0 <= i < |w.legs| && a in w.legs[i] && w.legs[i][a] == x {
      assert LegIntact(w, i);
    }
  }

  lemma DurableHasCopy(w: World, a: Artifact)
    requires Intact(w) && a.node in w.st.nodes
    requires a in w.st.nodes[a.node].disk || P.Everywhere(w.st, a)
    ensures Copies(w, a) != {}
  {
    if a in w.st.nodes[a.node].disk {
      assert w.disks[a.node][a] in Copies(w, a);
    } else {
      assert a in w.legs[0] && w.legs[0][a] in Copies(w, a);
    }
  }

  /** From snapshot to restore: in every run whose local plans are careful, whatever fails,
      crashes or is torn, the newest complete artifact of each (node, stack) has a copy,
      and every copy restores the stack to the snapshot it was taken from: over any
      destination, if the restore is not stopped, and always where the stack is absent. */
  lemma NewestBackupRestores(w: World, moves: seq<Move>, a: Artifact, x: Archive, dest: Tree, stuck: set<Path>)
    requires Init(w) && Runs(w, moves)
    requires P.Runs(w.st, Events(moves)) && P.CarefulRun(w.st, Events(moves), false)
    requires a.node in After(w, moves).st.nodes && P.Newest(After(w, moves).st.nodes[a.node], a)
    requires WellFormed(dest)
    ensures Shaped(After(w, moves)) && Copies(After(w, moves), a) != {}
    ensures a in After(w, moves).taken
    ensures x in Copies(After(w, moves), a) ==> RestoresTo(After(w, moves).taken[a], a.stack, x, dest, stuck)
  {
    InitIsIntact(w);
    RunKeepsIntact(w, moves);
    var w' := After(w, moves);
    P.NewestArtifactIsDurable(w.st, Events(moves), a.node, a, false);
    DurableHasCopy(w', a);
    var y :| y in Copies(w', a);
    CopiesAreGenuine(w', a, y);
    if x in Copies(w', a) {
      CopiesAreGenuine(w', a, x);
      GenuineRestores(w'.taken[a], a.stack, dest, stuck);
    }
  }

  /** Restoring `x` over `dest` gives the stack as the origin's snapshot has it. */
  ghost predicate RestoresTo(o: Origin, stack: string, x: Archive, dest: Tree, stuck: set<Path>) {
    var r := RestoreRun(dest, [x], Everything, 1, stuck);
    && (!r.report.Stopped? ==> forall p :: p != [] ==> RestoredAt(o.src, stack, o.only, dest, stuck, r.tree, p))
    && ([] in dest && dest[[]].Dir? && (forall q :: q in dest ==> !Covers([stack], q)) ==> r.report.Restored?)
  }

  lemma GenuineRestores(o: Origin, stack: string, dest: Tree, stuck: set<Path>)
    requires ValidOrigin(o, stack) && WellFormed(dest)
    ensures RestoresTo(o, stack, Bytes(o), dest, stuck)
  {
    var r := RestoreRun(dest, [Bytes(o)], Everything, 1, stuck);
    assert o.ps != [];
    if !r.report.Stopped? {
      forall p | p != []
        ensures RestoredAt(o.src, stack, o.only, dest, stuck, r.tree, p)
      {
        ArchiveRestores(o.src, stack, o.only, o.ps, dest, stuck, p);
      }
    }
    if dest[[]].Dir? && forall q :: q in dest ==> !Covers([stack], q) {
      RestoreOverAbsentStackSucceeds(o.src, stack, o.only, o.ps, dest, stuck);
    }
  }
}
