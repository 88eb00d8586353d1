/** The restore as it runs: a tree changed call by call, and a keep set filled on the way. */
module Volume {
  import opened Common
  import opened Tree
  import opened Restore

  /** Every entry of an archive mapped to the restore target. */
  function Mapped(raws: seq<RawEntry>): seq<Entry> {
    seq(|raws|, i requires 0 <= i < |raws| => Entry(RelPath(raws[i].name), raws[i].kind))
  }

  /** `collectArchivedPaths`: counts the files, and walks up from each selected entry,
      adding every ancestor. */
  method CollectArchivedPaths(raws: seq<RawEntry>, f: Filter, keep: set<Path>) returns (keep': set<Path>, files: nat)
    ensures keep' == keep + Keep(Selected(raws, f))
    ensures files == NonDirs(raws)
  {
    keep', files := CollectEntries(Mapped(raws), f, keep);
    MappedMeaning(raws, |raws|, f);
    CountMeaning(raws, |raws|);
    assert raws[..|raws|] == raws;
  }

  method CollectEntries(es: seq<Entry>, f: Filter, keep: set<Path>) returns (keep': set<Path>, files: nat)
    ensures keep' == keep + KeptUpTo(es, |es|, f)
    ensures files == NonDirsUpTo(es, |es|)
  {
    keep', files := keep, 0;
    for i := 0 to |es|
      invariant keep' == keep + KeptUpTo(es, i, f)
      invariant files == NonDirsUpTo(es, i)
    {
      if !es[i].kind.KDir? {
        files := files + 1;
      }
      if Includes(f, es[i].path) {
        keep' := AddAncestors(keep', es[i].path);
      }
    }
  }

  function KeptUpTo(es: seq<Entry>, i: nat, f: Filter): set<Path>
    requires i <= |es|
  {
    if i == 0 then {}
    else KeptUpTo(es, i - 1, f) + if Includes(f, es[i - 1].path) then Prefixes(es[i - 1].path) - {[]} else {}
  }

  function NonDirsUpTo(es: seq<Entry>, i: nat): nat
    requires i <= |es|
  {
    if i == 0 then 0 else NonDirsUpTo(es, i - 1) + if es[i - 1].kind.KDir? then 0 else 1
  }

  lemma {:induction false} CountMeaning(raws: seq<RawEntry>, i: nat)
    requires i <= |raws|
    ensures NonDirsUpTo(Mapped(raws), i) == NonDirs(raws[..i])
  {
    if i > 0 {
      CountMeaning(raws, i - 1);
      assert raws[..i][..i - 1] == raws[..i - 1];
    }
  }

  lemma SelectedOneMore(raws: seq<RawEntry>, i: nat, f: Filter, e: Entry)
    requires i < |raws| && e == Entry(RelPath(raws[i].name), raws[i].kind)
    ensures Selected(raws[..i + 1], f) == Selected(raws[..i], f) + if Includes(f, e.path) then [e] else []
  {
    assert raws[..i + 1][..i] == raws[..i];
  }

  lemma KeptOneMore(es: seq<Entry>, more: seq<Entry>, e: Entry, included: bool)
    requires more == es + if included then [e] else []
    ensures Keep(more) == Keep(es) + if included then Prefixes(e.path) - {[]} else {}
  {
    if included {
      KeepLast(es, e);
    } else {
      assert more == es;
    }
  }

  lemma {:induction false} MappedMeaning(raws: seq<RawEntry>, i: nat, f: Filter)
    requires i <= |raws|
    ensures KeptUpTo(Mapped(raws), i, f) == Keep(Selected(raws[..i], f))
  {
    if i > 0 {
      MappedMeaning(raws, i - 1, f);
      var e := Mapped(raws)[i - 1];
      SelectedOneMore(raws, i - 1, f, e);
      KeptOneMore(Selected(raws[..i - 1], f), Selected(raws[..i], f), e, Includes(f, e.path));
    }
  }

  lemma KeepLast(es: seq<Entry>, e: Entry)
    ensures Keep(es + [e]) == Keep(es) + (Prefixes(e.path) - {[]})
  {
    assert (es + [e])[..|es|] == es;
  }

  method AddAncestors(keep: set<Path>, path: Path) returns (keep': set<Path>)
    ensures keep' == keep + (Prefixes(path) - {[]})
  {
    keep' := keep;
    var rel := path;
    while rel != []
      invariant Covers(rel, path)
      invariant forall p :: p in keep' <==> p in keep || (Covers(p, path) && |rel| < |p|)
      decreases |rel|
    {
      keep' := keep' + {rel};
      AncestorsByLength(path, rel);
      rel := rel[..|rel| - 1];
    }
  }

  lemma AncestorsByLength(path: Path, rel: Path)
    requires Covers(rel, path)
    ensures forall p :: Covers(p, path) && |p| == |rel| ==> p == rel
  {
    forall p | Covers(p, path) && |p| == |rel|
      ensures p == rel
    {
      assert p == path[..|p|] && rel == path[..|rel|];
    }
  }

  // ---- the doomed subtrees ------------------------------------------------

  /** What the walk from a scope root marks: an entry the snapshot does not hold, reached
      through entries it does. Its subtree is skipped. */
  predicate Marked(t: Tree, keep: set<Path>, root: Path, d: Path) {
    d in t && Covers(root, d) && d !in keep && forall q :: q in Prefixes(d) && q != d && Covers(root, q) ==> q in keep
  }

  /** Below a scope root, an entry lies in a marked subtree exactly when the snapshot does
      not hold it: no kept path is ever removed with a directory above it. */
  lemma MarkedMeaning(t: Tree, keep: set<Path>, root: Path, p: Path)
    requires WellFormed(t) && PrefixClosed(keep) && root in keep && p in t && Covers(root, p)
    ensures p !in keep <==> exists d :: Marked(t, keep, root, d) && Covers(d, p)
  {
    if p !in keep {
      var d := FirstUnkept(t, keep, root, p);
      assert Marked(t, keep, root, d) && Covers(d, p);
    }
    if exists d :: Marked(t, keep, root, d) && Covers(d, p) {
      var d :| Marked(t, keep, root, d) && Covers(d, p);
      assert d != [];
    }
  }

  lemma {:induction false} FirstUnkept(t: Tree, keep: set<Path>, root: Path, p: Path) returns (d: Path)
    requires WellFormed(t) && root in keep && p in t && Covers(root, p) && p !in keep
    ensures Marked(t, keep, root, d) && Covers(d, p)
    decreases |p|
  {
    if exists q :: q in Prefixes(p) && q != p && Covers(root, q) && q !in keep {
      var q :| q in Prefixes(p) && q != p && Covers(root, q) && q !in keep;
      AncestorsAreDirs(t, p, q);
      assert |q| < |p|;
      d := FirstUnkept(t, keep, root, q);
    } else {
      d := p;
    }
  }

  /** What is left after pruning below the roots `done`. */
  ghost predicate PrunedBelow(t: Tree, t': Tree, keep: set<Path>, stuck: set<Path>, done: set<Path>) {
    forall p :: && (p in t' <==>
                    p in t && ((exists r :: r in done && Covers(r, p)) ==> p in keep || Pinned(t, p, stuck)))
                && (p in t' ==> t'[p] == t[p])
  }

  /** What cannot be removed is pinned before and after. */
  lemma StillPinned(t: Tree, t': Tree, stuck: set<Path>, p: Path)
    requires t'.Keys <= t.Keys && forall u :: u in stuck && u in t ==> u in t'
    ensures Pinned(t', p, stuck) <==> Pinned(t, p, stuck)
  {
    if u :| u in stuck && u in t && Covers(p, u) {
      assert u in t';
    }
  }

  class RestoreTarget {
    var tree: Tree

    constructor (tree: Tree)
      ensures this.tree == tree
    {
      this.tree := tree;
    }

    /** `restoreArchiveRelFiltered` over the selected entries. */
    method Extract(es: seq<Entry>) returns (ok: bool)
      modifies this
      ensures (if ok then Ok(tree) else Fail(tree)) == ApplyAll(old(tree), es)
    {
      ok := true;
      for i := 0 to |es|
        invariant ok && ApplyAll(old(tree), es[..i]) == Ok(tree)
      {
        assert es[..i + 1][..i] == es[..i];
        var o := ApplyEntry(tree, es[i]);
        tree := o.tree;
        if o.Fail? {
          ok := false;
          StopsHere(old(tree), es, i + 1);
          return;
        }
      }
      assert es[..|es|] == es;
    }

    method ExtractOne(a: Archive, f: Filter) returns (ok: bool)
      modifies this
      ensures (if ok then Ok(tree) else Fail(tree)) == ExtractArchive(old(tree), a, f)
    {
      var es := Selected(a.raws, f);
      if Breaks(a, f) {
        var at := a.fault.value.at;
        ok := Extract(es[..at]);
        if ok {
          tree := Interrupted(tree, es[at], a.fault.value.partial);
          ok := false;
        }
      } else {
        ok := Extract(es);
      }
    }

    /** Removing each marked entry with its whole subtree, ignoring failures. */
    method RemoveSubtrees(doomed: set<Path>, stuck: set<Path>)
      modifies this
      ensures SubtreesGone(old(tree), tree, stuck, doomed)
    {
      var todo := doomed;
      assert doomed - todo == {};
      while todo != {}
        invariant todo <= doomed
        invariant SubtreesGone(old(tree), tree, stuck, doomed - todo)
      {
        var d :| d in todo;
        SubtreeGoes(old(tree), tree, stuck, doomed - todo, d);
        assert doomed - (todo - {d}) == doomed - todo + {d};
        tree := RemoveAll(tree, d, stuck);
        todo := todo - {d};
      }
      assert doomed - todo == doomed;
    }

    /** The prune below one scope root: the walk marks, then the marked subtrees go. */
    method PruneRoot(keep: set<Path>, root: Path, stuck: set<Path>)
      requires WellFormed(tree) && PrefixClosed(keep) && root in keep
      modifies this
      ensures WellFormed(tree)
      ensures PrunedAt(old(tree), tree, keep, stuck, root)
    {
      var doomed := set d | d in tree && Marked(tree, keep, root, d);
      ghost var before := tree;
      RemoveSubtrees(doomed, stuck);
      MarkedSubtreesGone(before, tree, keep, stuck, root, doomed);
      PruningStaysWellFormed(before, tree, keep, stuck, root);
    }

    /** `pruneToSnapshot`: the scope roots come from the snapshot itself, never from the
        destination, and are visited in any order. */
    method PruneToSnapshot(keep: set<Path>, depth: nat, stuck: set<Path>)
      requires WellFormed(tree) && PrefixClosed(keep) && 1 <= depth
      modifies this
      ensures tree == Pruned(old(tree), keep, depth, stuck)
    {
      var roots := set p | p in keep && depth <= |p| :: p[..depth];
      RootsAreKept(keep, depth, roots);
      var todo := roots;
      while todo != {}
        invariant todo <= roots
        invariant WellFormed(tree)
        invariant PrunedBelow(old(tree), tree, keep, stuck, roots - todo)
      {
        var root :| root in todo;
        ghost var before := tree;
        PruneRoot(keep, root, stuck);
        PrunedBelowGrows(old(tree), before, tree, keep, stuck, roots - todo, root);
        assert roots - (todo - {root}) == roots - todo + {root};
        todo := todo - {root};
      }
      assert roots - todo == roots;
      ScopeByRoots(keep, depth, roots);
      forall p
        ensures p in tree <==> p in Pruned(old(tree), keep, depth, stuck)
      {
      }
    }

    /** One archive of the run: gates, entry set, extraction. */
    method RestoreArchive(a: Archive, f: Filter, keep: set<Path>) returns (ok: bool, keep': set<Path>, files: nat)
      requires WellFormed(tree)
      modifies this
      ensures (if ok then Ok(tree) else Fail(tree)) ==
              if Admitted(a) then ExtractArchive(old(tree), a, f) else Fail(old(tree))
      ensures ok ==> WellFormed(tree) && keep' == keep + Keep(Selected(a.raws, f)) && files == NonDirs(a.raws)
    {
      keep', files := keep, 0;
      if !Admitted(a) {
        return false, keep, 0;
      }
      keep', files := CollectArchivedPaths(a.raws, f, keep);
      ghost var before := tree;
      ok := ExtractOne(a, f);
      assert WellFormed(tree) by {
        ArchiveIsAdditive(before, a, f);
      }
    }

    /** `Restore`: archive by archive, then the prune, then the zero-file report. */
    method Run(archives: seq<Archive>, stack: Option<string>, volume: Option<Path>, stuck: set<Path>)
      returns (report: Report)
      requires WellFormed(tree)
      modifies this
      ensures Result(tree, report) == RestoreRun(old(tree), archives, FilterFor(stack, volume), DepthFor(volume), stuck)
      ensures !report.Stopped? && PlainArchives(archives) ==>
                RestoredFor(old(tree), tree, archives, stack, volume, stuck)
      ensures !report.Stopped? && PlainArchives(archives) && stack.Some? && stack.value != ""
              && volume.Some? && |volume.value| == 1 ==>
                forall p :: p != [] && p != [stack.value] && !Covers([stack.value, volume.value[0]], p) ==>
                              (p in tree <==> p in old(tree)) && (p in tree ==> tree[p] == old(tree)[p])
    {
      if archives == [] {
        return Stopped;
      }
      var f := FilterFor(stack, volume);
      var keep: set<Path> := {};
      var restored, archived := 0, 0;
      for i := 0 to |archives|
        invariant ExtractRun(old(tree), archives[..i], f) == Ok(tree) && WellFormed(tree)
        invariant keep == Keep(AllEntries(archives[..i], f))
        invariant restored == Count(AllEntries(archives[..i], f)) && archived == Archived(archives[..i])
      {
        OneMoreArchive(old(tree), archives, i, f);
        var ok, keep', files := RestoreArchive(archives[i], f, keep);
        if !ok {
          RunStopsHere(old(tree), archives, i + 1, f);
          return Stopped;
        }
        keep, archived := keep', archived + files;
        restored := restored + Count(Selected(archives[i].raws, f));
      }
      assert archives[..|archives|] == archives;
      KeepIsPrefixClosed(AllEntries(archives, f));
      PruneToSnapshot(keep, DepthFor(volume), stuck);
      report := if restored == 0 then NothingRestored(archived == 0) else Restored(restored);
      if PlainArchives(archives) {
        RequestRestores(old(tree), archives, stack, volume, stuck);
        SparesSiblings(old(tree), tree, archives, stack, volume, stuck);
      }
    }
  }

  lemma SparesSiblings(t: Tree, t': Tree, archives: seq<Archive>, stack: Option<string>, volume: Option<Path>,
                       stuck: set<Path>)
    requires PlainArchives(archives) && RestoredFor(t, t', archives, stack, volume, stuck)
    ensures stack.Some? && stack.value != "" && volume.Some? && |volume.value| == 1 ==>
              forall p :: p != [] && p != [stack.value] && !Covers([stack.value, volume.value[0]], p) ==>
                            (p in t' <==> p in t) && (p in t' ==> t'[p] == t[p])
  {
    if stack.Some? && stack.value != "" && volume.Some? && |volume.value| == 1 {
      assert volume.value == [volume.value[0]];
      forall p | p != [] && p != [stack.value] && !Covers([stack.value, volume.value[0]], p)
        ensures (p in t' <==> p in t) && (p in t' ==> t'[p] == t[p])
      {
        RequestSparesSiblings(t, t', archives, stack.value, volume.value[0], stuck, p);
      }
    }
  }

  lemma OneMoreArchive(t: Tree, archives: seq<Archive>, i: nat, f: Filter)
    requires i < |archives|
    ensures var a, init, more := archives[i], archives[..i], archives[..i + 1];
            && Keep(AllEntries(more, f)) == Keep(AllEntries(init, f)) + Keep(Selected(a.raws, f))
            && Count(AllEntries(more, f)) == Count(AllEntries(init, f)) + Count(Selected(a.raws, f))
            && Archived(more) == Archived(init) + NonDirs(a.raws)
            && (ExtractRun(t, init, f).Ok? ==>
                  ExtractRun(t, more, f) == if Admitted(a) then ExtractArchive(ExtractRun(t, init, f).tree, a, f)
                                            else Fail(ExtractRun(t, init, f).tree))
  {
    assert archives[..i + 1][..i] == archives[..i];
    KeepAppend(AllEntries(archives[..i], f), Selected(archives[i].raws, f));
    CountAppend(AllEntries(archives[..i], f), Selected(archives[i].raws, f));
  }

  lemma StopsHere(t: Tree, es: seq<Entry>, i: nat)
    requires i <= |es| && ApplyAll(t, es[..i]).Fail?
    ensures ApplyAll(t, es) == ApplyAll(t, es[..i])
  {
    ApplyAppend(t, es[..i], es[i..]);
    assert es == es[..i] + es[i..];
  }

  lemma RunStopsHere(t: Tree, archives: seq<Archive>, i: nat, f: Filter)
    requires i <= |archives| && ExtractRun(t, archives[..i], f).Fail?
    ensures ExtractRun(t, archives, f) == ExtractRun(t, archives[..i], f)
  {
    LaterArchivesUntouched(t, archives[..i], archives[i..], f);
    assert archives == archives[..i] + archives[i..];
  }

  lemma {:induction false} CountAppend(es: seq<Entry>, more: seq<Entry>)
    ensures Count(es + more) == Count(es) + Count(more)
    decreases |more|
  {
    if more == [] {
      assert es + more == es;
    } else {
      assert (es + more)[..|es + more| - 1] == es + more[..|more| - 1];
      CountAppend(es, more[..|more| - 1]);
    }
  }

  lemma OutsideIsUnmarked(doomed: set<Path>, root: Path, p: Path)
    requires !Covers(root, p) && forall d :: d in doomed ==> Covers(root, d)
    ensures forall d :: d in doomed ==> !Covers(d, p)
  {
    forall d | d in doomed && Covers(d, p)
      ensures false
    {
      CoversTransitive(root, d, p);
    }
  }

  /** What is left after pruning below one root. */
  ghost predicate PrunedAt(t: Tree, t': Tree, keep: set<Path>, stuck: set<Path>, root: Path) {
    forall p :: && (p in t' <==> p in t && (Covers(root, p) ==> p in keep || Pinned(t, p, stuck)))
                && (p in t' ==> t'[p] == t[p])
  }

  /** What is left after removing the subtrees `gone`. */
  ghost predicate SubtreesGone(t: Tree, t': Tree, stuck: set<Path>, gone: set<Path>) {
    forall p :: (p in t' <==> p in t && ((exists d :: d in gone && Covers(d, p)) ==> Pinned(t, p, stuck))) &&
                (p in t' ==> t'[p] == t[p])
  }

  lemma SubtreeGoes(t: Tree, m: Tree, stuck: set<Path>, gone: set<Path>, d: Path)
    requires SubtreesGone(t, m, stuck, gone)
    ensures SubtreesGone(t, RemoveAll(m, d, stuck), stuck, gone + {d})
  {
    forall u | u in stuck && u in t
      ensures u in m
    {
      assert Covers(u, u) && Pinned(t, u, stuck);
    }
    forall p
      ensures Pinned(m, p, stuck) <==> Pinned(t, p, stuck)
      ensures (exists e :: e in gone + {d} && Covers(e, p)) <==> (exists e :: e in gone && Covers(e, p)) || Covers(d, p)
    {
      StillPinned(t, m, stuck, p);
      OneMore(gone, d, p);
    }
  }

  lemma OneMore(done: set<Path>, d: Path, p: Path)
    ensures (exists e :: e in done + {d} && Covers(e, p)) <==> (exists e :: e in done && Covers(e, p)) || Covers(d, p)
  {
    if e :| e in done && Covers(e, p) {
      assert e in done + {d};
    }
    if Covers(d, p) {
      assert d in done + {d};
    }
  }

  lemma MarkedSubtreesGone(t: Tree, t': Tree, keep: set<Path>, stuck: set<Path>, root: Path, doomed: set<Path>)
    requires WellFormed(t) && PrefixClosed(keep) && root in keep
    requires SubtreesGone(t, t', stuck, doomed) && forall d :: d in doomed <==> Marked(t, keep, root, d)
    ensures PrunedAt(t, t', keep, stuck, root)
  {
    forall p | p in t
      ensures (exists d :: d in doomed && Covers(d, p)) <==> Covers(root, p) && p !in keep
    {
      if Covers(root, p) {
        MarkedMeaning(t, keep, root, p);
      } else {
        OutsideIsUnmarked(doomed, root, p);
      }
    }
  }

  lemma PruningStaysWellFormed(t: Tree, t': Tree, keep: set<Path>, stuck: set<Path>, root: Path)
    requires WellFormed(t) && PrefixClosed(keep) && root in keep && PrunedAt(t, t', keep, stuck, root)
    ensures WellFormed(t')
  {
    assert !Covers(root, []);
    forall p | p in t' && p != []
      ensures Parent(p) in t' && t'[Parent(p)].Dir?
    {
      CoversParent(Parent(p), p);
      if Covers(root, Parent(p)) {
        CoversTransitive(root, Parent(p), p);
        if u :| u in stuck && u in t && Covers(p, u) {
          CoversTransitive(Parent(p), p, u);
        }
      }
    }
  }

  lemma RootsAreKept(keep: set<Path>, depth: nat, roots: set<Path>)
    requires PrefixClosed(keep) && 1 <= depth
    requires roots == set p | p in keep && depth <= |p| :: p[..depth]
    ensures roots <= keep
  {
    forall r | r in roots
      ensures r in keep
    {
      var p :| p in keep && depth <= |p| && r == p[..depth];
      assert Covers(r, p);
    }
  }

  lemma ScopeByRoots(keep: set<Path>, depth: nat, roots: set<Path>)
    requires PrefixClosed(keep) && 1 <= depth
    requires roots == set p | p in keep && depth <= |p| :: p[..depth]
    ensures forall p :: InScope(p, keep, depth) <==> exists r :: r in roots && Covers(r, p)
  {
    RootsAreKept(keep, depth, roots);
    forall p
      ensures InScope(p, keep, depth) <==> exists r :: r in roots && Covers(r, p)
    {
      if InScope(p, keep, depth) {
        assert p[..depth][..depth] == p[..depth];
        assert p[..depth] in roots && Covers(p[..depth], p);
      }
      if exists r :: r in roots && Covers(r, p) {
        var r :| r in roots && Covers(r, p);
        assert r == p[..depth];
      }
    }
  }

  lemma PrunedBelowGrows(t: Tree, m: Tree, t': Tree, keep: set<Path>, stuck: set<Path>, done: set<Path>, root: Path)
    requires PrunedBelow(t, m, keep, stuck, done) && PrunedAt(m, t', keep, stuck, root)
    ensures PrunedBelow(t, t', keep, stuck, done + {root})
  {
    forall u | u in stuck && u in t
      ensures u in m
    {
      assert Covers(u, u) && Pinned(t, u, stuck);
    }
    forall p
      ensures Pinned(m, p, stuck) <==> Pinned(t, p, stuck)
      ensures (exists r :: r in done + {root} && Covers(r, p)) <==>
              (exists r :: r in done && Covers(r, p)) || Covers(root, p)
    {
      StillPinned(t, m, stuck, p);
      OneMore(done, root, p);
    }
  }
}
