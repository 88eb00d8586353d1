/** A destination tree as a restore sees it, and the file-system calls it makes. Symlinks
    are leaves: where the program would follow one, the call fails here. */
module Tree {
  type Path = seq<string>

  datatype Node = Dir | File(content: string) | Link(target: string)

  type Tree = map<Path, Node>

  /** A call either succeeds or stops the restore; either way it leaves a tree. */
  datatype Outcome = Ok(tree: Tree) | Fail(tree: Tree)

  /** `d` is `p` or one of its ancestors. */
  predicate Covers(d: Path, p: Path) { d <= p }

  function Parent(p: Path): Path {
    if p == [] then [] else p[..|p| - 1]
  }

  lemma CoversParent(q: Path, p: Path)
    ensures Covers(q, p) <==> q == p || (p != [] && Covers(q, Parent(p)))
  {
    if q <= p && q != p {
      assert q == p[..|q|] == Parent(p)[..|q|];
    }
  }

  lemma CoversTransitive(a: Path, b: Path, c: Path)
    requires Covers(a, b) && Covers(b, c)
    ensures Covers(a, c)
  {
  }

  /** Every entry but the root has a directory for parent. */
  ghost predicate WellFormed(t: Tree) {
    && [] in t
    && forall p :: p in t && p != [] ==> Parent(p) in t && t[Parent(p)].Dir?
  }

  lemma {:induction false} AncestorsAreDirs(t: Tree, p: Path, q: Path)
    requires WellFormed(t) && p in t && Covers(q, p) && q != p
    ensures q in t && t[q].Dir?
    decreases |p|
  {
    CoversParent(q, p);
    if q != Parent(p) {
      AncestorsAreDirs(t, Parent(p), q);
    }
  }

  predicate HasChildren(t: Tree, p: Path) {
    exists q :: q in t && Covers(p, q) && q != p
  }

  // ---- calls --------------------------------------------------------------

  function Prefixes(p: Path): (s: set<Path>)
    ensures forall q :: q in s <==> Covers(q, p)
  {
    var s := set k | 0 <= k <= |p| :: p[..k];
    assert forall q :: Covers(q, p) ==> q == p[..|q|] && p[..|q|] in s;
    s
  }

  /** `os.MkdirAll`: every missing prefix becomes a directory, unless one is something else. */
  function MkdirAll(t: Tree, p: Path): Outcome {
    if forall q :: q in Prefixes(p) && q in t ==> t[q].Dir?
    then Ok(t + map q | q in Prefixes(p) :: Dir)
    else Fail(t)
  }

  /** Create or truncate a regular file, its directory first. */
  function WriteFile(t: Tree, p: Path, content: string): Outcome {
    match MkdirAll(t, Parent(p))
    case Fail(t') => Fail(t')
    case Ok(t') => if p in t' && !t'[p].File? then Fail(t') else Ok(t'[p := File(content)])
  }

  /** Remove whatever single entry stands in the way, then link; a directory that holds
      something cannot be removed and stops the restore. */
  function MakeLink(t: Tree, p: Path, target: string): Outcome {
    if p == [] then Fail(t) else
    match MkdirAll(t, Parent(p))
    case Fail(t') => Fail(t')
    case Ok(t') => if HasChildren(t', p) then Fail(t') else Ok(t'[p := Link(target)])
  }

  /** Something at or below `p` cannot be removed. */
  predicate Pinned(t: Tree, p: Path, stuck: set<Path>) {
    exists u :: u in stuck && u in t && Covers(p, u)
  }

  /** `os.RemoveAll`: what cannot be removed stays, with the directories above it. */
  function RemoveAll(t: Tree, d: Path, stuck: set<Path>): Tree {
    map p | p in t && (Covers(d, p) ==> Pinned(t, p, stuck)) :: t[p]
  }

  // ---- what the calls do --------------------------------------------------

  /** `t'` is `t` with `node` at `p` and directories above it, and nothing else changed. */
  ghost predicate Placed(t: Tree, t': Tree, p: Path, node: Node) {
    && p in t' && t'[p] == node
    && (forall q :: Covers(q, p) && q != p ==> q in t' && t'[q] == Dir && (q in t ==> t[q] == Dir))
    && (forall q :: !Covers(q, p) ==> (q in t' <==> q in t) && (q in t ==> t'[q] == t[q]))
  }

  /** Nothing is lost, and nothing outside `p` and its ancestors is touched. */
  ghost predicate Contained(t: Tree, t': Tree, p: Path) {
    && (forall q :: q in t ==> q in t')
    && (forall q :: !Covers(q, p) ==> (q in t' <==> q in t) && (q in t ==> t'[q] == t[q]))
  }

  lemma MkdirAllEffect(t: Tree, p: Path)
    requires WellFormed(t)
    ensures var o := MkdirAll(t, p);
            && WellFormed(o.tree)
            && (o.Ok? <==> forall q :: q in t && Covers(q, p) ==> t[q] == Dir)
            && (o.Fail? ==> o.tree == t)
            && (o.Ok? ==> Placed(t, o.tree, p, Dir) && (p in t ==> t[p] == Dir))
  {
    var o := MkdirAll(t, p);
    if o.Ok? {
      forall q | q in o.tree && q != []
        ensures Parent(q) in o.tree && o.tree[Parent(q)].Dir?
      {
        if Covers(q, p) {
          assert Covers(Parent(q), p);
        }
      }
    }
  }

  lemma UpdateStaysWellFormed(m: Tree, p: Path, node: Node)
    requires WellFormed(m) && p != [] && Parent(p) in m && m[Parent(p)].Dir? && !HasChildren(m, p)
    ensures WellFormed(m[p := node])
  {
    var t' := m[p := node];
    forall q | q in t' && q != []
      ensures Parent(q) in t' && t'[Parent(q)].Dir?
    {
      if Parent(q) == p {
        assert Covers(p, q);
      }
    }
  }

  lemma PlacedUnderParent(t: Tree, m: Tree, p: Path, node: Node)
    requires p != [] && Placed(t, m, Parent(p), Dir) && (Parent(p) in t ==> t[Parent(p)] == Dir)
    ensures Placed(t, m[p := node], p, node)
  {
    forall q
      ensures Covers(q, p) <==> q == p || Covers(q, Parent(p))
    {
      CoversParent(q, p);
    }
  }

  lemma FileHasNoChildren(t: Tree, p: Path)
    requires WellFormed(t) && (p in t ==> !t[p].Dir?)
    ensures !HasChildren(t, p)
  {
    forall q | q in t && Covers(p, q) && q != p
      ensures false
    {
      AncestorsAreDirs(t, q, p);
    }
  }

  /** Every ancestor of `p` that is there is a directory. */
  ghost predicate OpenAbove(t: Tree, p: Path) {
    forall q :: q in t && Covers(q, p) && q != p ==> t[q] == Dir
  }

  lemma OpenAboveParent(t: Tree, p: Path)
    requires p != []
    ensures OpenAbove(t, p) <==> forall q :: q in t && Covers(q, Parent(p)) ==> t[q] == Dir
  {
    forall q
      ensures Covers(q, p) && q != p <==> Covers(q, Parent(p))
    {
      CoversParent(q, p);
    }
  }

  /** A file can be written exactly where every ancestor is a directory or missing and
      nothing but a file stands. It is then placed there, and nothing else changes. */
  lemma WriteFileEffect(t: Tree, p: Path, content: string)
    requires WellFormed(t)
    ensures var o := WriteFile(t, p, content);
            && WellFormed(o.tree)
            && (o.Ok? <==> p != [] && OpenAbove(t, p) && (p in t ==> t[p].File?))
            && (o.Ok? ==> p != [] && Placed(t, o.tree, p, File(content)))
            && Contained(t, o.tree, p)
  {
    MkdirAllEffect(t, Parent(p));
    CoversParentAll(p);
    var m := MkdirAll(t, Parent(p)).tree;
    if p != [] {
      OpenAboveParent(t, p);
      assert !Covers(p, Parent(p));
    }
    if WriteFile(t, p, content).Ok? {
      FileHasNoChildren(m, p);
      PlacedUnderParent(t, m, p, File(content));
      UpdateStaysWellFormed(m, p, File(content));
    }
  }

  /** A link can be made exactly where every ancestor is a directory or missing and nothing
      lies below. It replaces what stands there, and nothing else changes. */
  lemma MakeLinkEffect(t: Tree, p: Path, target: string)
    requires WellFormed(t)
    ensures var o := MakeLink(t, p, target);
            && WellFormed(o.tree)
            && (o.Ok? <==> p != [] && OpenAbove(t, p) && forall q :: q in t && Covers(p, q) ==> q == p)
            && (o.Ok? ==> p != [] && Placed(t, o.tree, p, Link(target)))
            && Contained(t, o.tree, p)
  {
    MkdirAllEffect(t, Parent(p));
    CoversParentAll(p);
    var m := MkdirAll(t, Parent(p)).tree;
    if p != [] {
      OpenAboveParent(t, p);
      SameBelow(t, p);
    }
    if MakeLink(t, p, target).Ok? {
      PlacedUnderParent(t, m, p, Link(target));
      UpdateStaysWellFormed(m, p, Link(target));
    }
  }

  /** Making the parent adds nothing below the path. */
  lemma SameBelow(t: Tree, p: Path)
    requires WellFormed(t) && p != []
    ensures HasChildren(MkdirAll(t, Parent(p)).tree, p) <==> HasChildren(t, p)
  {
    var m := MkdirAll(t, Parent(p)).tree;
    forall q | Covers(p, q)
      ensures q in m <==> q in t
    {
      assert |Parent(p)| < |q|;
      assert !Covers(q, Parent(p));
      MkdirAllEffect(t, Parent(p));
    }
  }

  lemma CoversParentAll(p: Path)
    ensures forall q :: Covers(q, Parent(p)) ==> Covers(q, p)
  {
    forall q | Covers(q, Parent(p))
      ensures Covers(q, p)
    {
      CoversParent(q, p);
    }
  }
}
