/** The retention rules as a decision about sets of artifacts, and the laws they obey
    whatever order writes and prunes happen in. */
module Retention {
  import opened Artifacts
  import opened Calendar

  const SECOND := 1_000_000_000

  datatype Policy = Policy(keepHours: int, keepDays: int, keepLast: int, includeLegacy: bool)
  {
    /** KeepLast is clamped: the newest artifact is never deleted. */
    function Floor(): (k: nat)
      ensures 1 <= k && keepLast <= k
    {
      if keepLast < 1 then 1 else keepLast
    }
  }

  /** Age in nanoseconds of an instant given in seconds, at a clock in nanoseconds. */
  function Age(at: int, now: int): int {
    now - at * SECOND
  }

  predicate Dense(at: int, p: Policy, now: int) {
    Age(at, now) < p.keepHours * 3600 * SECOND
  }

  predicate Expired(at: int, p: Policy, now: int) {
    Age(at, now) > p.keepDays * DAY * SECOND
  }

  predicate ShouldDelete(at: int, p: Policy, now: int, newestOfDay: bool) {
    if Dense(at, p, now) then false
    else if Expired(at, p, now) then true
    else !newestOfDay
  }

  predicate SameDay(a: Artifact, b: Artifact) {
    a.at / DAY == b.at / DAY
  }

  /** The artifacts of `a`'s own (node, stack) that are newer than it. */
  ghost function Newer(s: set<Artifact>, a: Artifact): set<Artifact> {
    set b | b in s && SameGroup(a, b) && a.at < b.at
  }

  ghost predicate NewestOfDay(s: set<Artifact>, a: Artifact) {
    forall b :: b in s && SameGroup(a, b) && SameDay(a, b) ==> b.at <= a.at
  }

  /** The verdict on one artifact of a history: outside the floor, and aged out. */
  ghost predicate Doomed(s: set<Artifact>, a: Artifact, p: Policy, now: int) {
    |Newer(s, a)| >= p.Floor() && ShouldDelete(a.at, p, now, NewestOfDay(s, a))
  }

  ghost function Survivors(s: set<Artifact>, p: Policy, now: int): set<Artifact> {
    set a | a in s && !Doomed(s, a, p, now)
  }

  // ---- monotonicity -------------------------------------------------------

  lemma SubsetCardinality<T>(a: set<T>, b: set<T>)
    requires a <= b
    ensures |a| <= |b|
  {
    assert b == a + (b - a);
  }

  lemma StrictSubsetCardinality<T>(a: set<T>, b: set<T>, x: T)
    requires a <= b && x in b && x !in a
    ensures |a| < |b|
  {
    SubsetCardinality(a, b - {x});
  }

  /** A verdict of deletion is final: it stands in every larger history and at every
      later clock. */
  lemma DoomedIsFinal(s: set<Artifact>, u: set<Artifact>, a: Artifact, p: Policy, t1: int, t2: int)
    requires s <= u && t1 <= t2 && Doomed(s, a, p, t1)
    ensures Doomed(u, a, p, t2)
  {
    SubsetCardinality(Newer(s, a), Newer(u, a));
  }

  // ---- confluence ---------------------------------------------------------

  /** Removing artifacts below the floor leaves every other artifact's place relative to
      the floor as it was. */
  lemma {:induction false} FloorUnmoved(u: set<Artifact>, b: set<Artifact>, a: Artifact, k: nat)
    requires b <= u
    requires forall x :: x in u - b ==> |Newer(u, x)| >= k
    requires |Newer(u, a)| >= k
    ensures |Newer(b, a)| >= k
    decreases |Newer(u, a)|
  {
    if Newer(u, a) <= b {
      assert Newer(b, a) == Newer(u, a);
    } else {
      var x :| x in Newer(u, a) && x !in b;
      StrictSubsetCardinality(Newer(u, x), Newer(u, a), x);
      FloorUnmoved(u, b, x, k);
      SubsetCardinality(Newer(b, x), Newer(b, a));
    }
  }

  /** A day that still matters keeps a newer representative. */
  lemma {:induction false} DayStillRepresented(u: set<Artifact>, b: set<Artifact>, a: Artifact, p: Policy, t: int)
    requires b <= u
    requires forall x :: x in u - b ==> Doomed(u, x, p, t)
    requires !NewestOfDay(u, a) && !Expired(a.at, p, t)
    ensures !NewestOfDay(b, a)
    decreases |Newer(u, a)|
  {
    var x :| x in u && SameGroup(a, x) && SameDay(a, x) && a.at < x.at;
    if x !in b {
      assert Doomed(u, x, p, t);
      assert x in Newer(u, a);
      StrictSubsetCardinality(Newer(u, x), Newer(u, a), x);
      DayStillRepresented(u, b, x, p, t);
      var y :| y in b && SameGroup(x, y) && SameDay(x, y) && x.at < y.at;
      assert SameGroup(a, y) && SameDay(a, y);
    }
  }

  /** Confluence: a store that lost only artifacts the rules condemn in the full history
      is pruned to exactly what the full history is pruned to. */
  lemma Confluence(u: set<Artifact>, b: set<Artifact>, p: Policy, t: int)
    requires b <= u
    requires forall x :: x in u - b ==> Doomed(u, x, p, t)
    ensures Survivors(b, p, t) == Survivors(u, p, t)
  {
    forall a | a in b
      ensures Doomed(b, a, p, t) <==> Doomed(u, a, p, t)
    {
      if Doomed(b, a, p, t) {
        DoomedIsFinal(b, u, a, p, t, t);
      }
      if Doomed(u, a, p, t) {
        FloorUnmoved(u, b, a, p.Floor());
        if !Expired(a.at, p, t) {
          DayStillRepresented(u, b, a, p, t);
        }
      }
    }
  }

  /** Path independence: prune `s` at `t1`, possibly failing to delete some of what was
      condemned, let anything at all arrive, prune again later. The result is one prune
      of everything. */
  lemma PathIndependent(s: set<Artifact>, left: set<Artifact>, arrivals: set<Artifact>, p: Policy, t1: int, t2: int)
    requires t1 <= t2
    requires Survivors(s, p, t1) <= left <= s
    ensures Survivors(left + arrivals, p, t2) == Survivors(s + arrivals, p, t2)
  {
    var u, b := s + arrivals, left + arrivals;
    forall x | x in u - b
      ensures Doomed(u, x, p, t2)
    {
      DoomedIsFinal(s, u, x, p, t1, t2);
    }
    Confluence(u, b, p, t2);
  }

  /** One step of a leg's life: artifacts arrive, or a prune runs at some clock and
      fails to delete the condemned artifacts in `missed`. */
  datatype Event = Arrive(artifacts: set<Artifact>) | Prune(now: int, missed: set<Artifact>)

  ghost function Held(history: seq<Event>, p: Policy): set<Artifact> {
    if history == [] then {}
    else
      var before := Held(history[..|history| - 1], p);
      match history[|history| - 1]
      case Arrive(arts) => before + arts
      case Prune(now, missed) => Survivors(before, p, now) + (before * missed)
  }

  ghost function Written(history: seq<Event>): set<Artifact> {
    if history == [] then {}
    else
      var before := Written(history[..|history| - 1]);
      match history[|history| - 1]
      case Arrive(arts) => before + arts
      case Prune(_, _) => before
  }

  ghost predicate ClocksUpTo(history: seq<Event>, t: int) {
    forall i :: 0 <= i < |history| && history[i].Prune? ==> history[i].now <= t
  }

  lemma {:induction false} OnlyDoomedIsLost(history: seq<Event>, p: Policy, t: int)
    requires ClocksUpTo(history, t)
    ensures Held(history, p) <= Written(history)
    ensures forall x :: x in Written(history) - Held(history, p) ==> Doomed(Written(history), x, p, t)
  {
    if history != [] {
      var prefix := history[..|history| - 1];
      OnlyDoomedIsLost(prefix, p, t);
      var u0, u := Written(prefix), Written(history);
      forall x | x in u - Held(history, p)
        ensures Doomed(u, x, p, t)
      {
        match history[|history| - 1]
        case Arrive(arts) =>
          DoomedIsFinal(u0, u, x, p, t, t);
        case Prune(now, missed) =>
          if x in Held(prefix, p) {
            DoomedIsFinal(Held(prefix, p), u, x, p, now, t);
          }
      }
    }
  }

  /** Any interleaving of writes and (partly failed) prunes, at clocks in any order,
      followed by one prune no earlier than all of them, equals that one prune applied
      to everything ever written. */
  lemma HistoryIndependent(history: seq<Event>, p: Policy, t: int)
    requires ClocksUpTo(history, t)
    ensures Survivors(Held(history, p), p, t) == Survivors(Written(history), p, t)
  {
    OnlyDoomedIsLost(history, p, t);
    Confluence(Written(history), Held(history, p), p, t);
  }

  // ---- what one prune guarantees ------------------------------------------

  /** Coverage and floor: the dense window is untouched, the newest artifacts of every
      group survive, and each day holding an unexpired artifact of a group still holds
      one, no older than any other of that day. */
  lemma CoverageAndFloor(s: set<Artifact>, p: Policy, now: int, a: Artifact)
    requires a in s
    ensures Dense(a.at, p, now) ==> a in Survivors(s, p, now)
    ensures |Newer(s, a)| < p.Floor() ==> a in Survivors(s, p, now)
    ensures !Expired(a.at, p, now) ==>
              exists b :: b in Survivors(s, p, now) && SameGroup(a, b) && SameDay(a, b) && a.at <= b.at
  {
    if !Expired(a.at, p, now) {
      var b := NewestThatDay(s, a);
      assert !Expired(b.at, p, now);
      assert b in Survivors(s, p, now);
    }
  }

  /** The verdict in plain numbers. An artifact survives exactly when fewer than KeepLast
      (and fewer than one) of its (node, stack) are newer, or it is younger than KeepHours
      hours, or it is at most KeepDays days old and no other of its (node, stack) and UTC
      day is newer. */
  lemma SurvivesIff(s: set<Artifact>, p: Policy, now: int, a: Artifact)
    requires a in s
    ensures var newer := set b | b in s && b.node == a.node && b.stack == a.stack && a.at < b.at;
            var age := now - a.at * 1_000_000_000;
            a in Survivors(s, p, now) <==>
              || |newer| < 1 || |newer| < p.keepLast
              || age < p.keepHours * 3600 * 1_000_000_000
              || (age <= p.keepDays * 86400 * 1_000_000_000 &&
                  forall b :: b in newer ==> b.at / 86400 != a.at / 86400)
  {
    var newer := set b | b in s && b.node == a.node && b.stack == a.stack && a.at < b.at;
    assert newer == Newer(s, a);
    assert NewestOfDay(s, a) <==> forall b :: b in newer ==> b.at / 86400 != a.at / 86400;
  }

  /** The windows in plain numbers: everything younger than KeepHours hours survives, and
      every UTC day holding something at most KeepDays days old keeps one at least as new. */
  lemma WindowsInNumbers(s: set<Artifact>, p: Policy, now: int, a: Artifact)
    requires a in s
    ensures now - a.at * 1_000_000_000 < p.keepHours * 3600 * 1_000_000_000 ==> a in Survivors(s, p, now)
    ensures now - a.at * 1_000_000_000 <= p.keepDays * 86400 * 1_000_000_000 ==>
              exists b :: && b in Survivors(s, p, now) && b.node == a.node && b.stack == a.stack
                          && b.at / 86400 == a.at / 86400 && a.at <= b.at
  {
    CoverageAndFloor(s, p, now, a);
  }

  lemma {:induction false} NewestThatDay(s: set<Artifact>, a: Artifact) returns (b: Artifact)
    requires a in s
    ensures b in s && SameGroup(a, b) && SameDay(a, b) && a.at <= b.at && NewestOfDay(s, b)
    decreases |Newer(s, a)|
  {
    if NewestOfDay(s, a) {
      b := a;
    } else {
      var x :| x in s && SameGroup(a, x) && SameDay(a, x) && a.at < x.at;
      StrictSubsetCardinality(Newer(s, x), Newer(s, a), x);
      b := NewestThatDay(s, x);
    }
  }

  /** A verdict depends on nothing outside the artifact's own (node, stack). */
  lemma GroupsAreIndependent(s: set<Artifact>, s': set<Artifact>, a: Artifact, p: Policy, now: int)
    requires forall b :: SameGroup(a, b) ==> (b in s <==> b in s')
    ensures Doomed(s, a, p, now) <==> Doomed(s', a, p, now)
  {
    assert Newer(s, a) == Newer(s', a);
  }

  // ---- the size bound -----------------------------------------------------

  ghost predicate OneGroup(s: set<Artifact>) {
    forall a, b :: a in s && b in s ==> SameGroup(a, b)
  }

  /** No two artifacts of a group share an instant (a consequence of the name grammar). */
  ghost predicate DistinctTimes(s: set<Artifact>) {
    forall a, b :: a in s && b in s && SameGroup(a, b) && a.at == b.at ==> a == b
  }

  lemma {:induction false} Oldest(s: set<Artifact>) returns (m: Artifact)
    requires s != {}
    ensures m in s && forall b :: b in s ==> m.at <= b.at
  {
    m :| m in s;
    if s != {m} {
      var r := Oldest(s - {m});
      if r.at < m.at {
        m := r;
      }
    }
  }

  /** At most `k` artifacts of a group have fewer than `k` newer ones. */
  lemma AtMostFloor(s: set<Artifact>, k: nat)
    requires OneGroup(s) && DistinctTimes(s)
    ensures |set a | a in s && |Newer(s, a)| < k| <= k
  {
    var top := set a | a in s && |Newer(s, a)| < k;
    if top != {} {
      var m := Oldest(top);
      assert top - {m} <= Newer(s, m);
      SubsetCardinality(top - {m}, Newer(s, m));
    }
  }

  /** An injection into an integer interval bounds the size. */
  lemma {:induction false} IntervalBound<T(!new)>(s: set<T>, f: T -> int, lo: int, hi: int)
    requires forall a :: a in s ==> lo <= f(a) <= hi
    requires forall a, b :: a in s && b in s && f(a) == f(b) ==> a == b
    ensures |s| <= if lo <= hi then hi - lo + 1 else 0
    decreases if lo <= hi then hi - lo + 1 else 0
  {
    if s != {} {
      var some :| some in s;
      if a :| a in s && f(a) == hi {
        assert s == (s - {a}) + {a};
        IntervalBound(s - {a}, f, lo, hi - 1);
      } else {
        IntervalBound(s, f, lo, hi - 1);
      }
    }
  }

  /** The first and the last day on which an artifact can be neither dense nor expired. */
  function FirstSparseDay(p: Policy, now: int): int {
    (now - p.keepDays * DAY * SECOND) / (DAY * SECOND)
  }

  function LastSparseDay(p: Policy, now: int): int {
    (now - p.keepHours * 3600 * SECOND) / (DAY * SECOND)
  }

  function SparseDays(p: Policy, now: int): nat {
    if FirstSparseDay(p, now) <= LastSparseDay(p, now)
    then LastSparseDay(p, now) - FirstSparseDay(p, now) + 1 else 0
  }

  lemma SparseDayInWindow(at: int, p: Policy, now: int)
    requires !Dense(at, p, now) && !Expired(at, p, now)
    ensures FirstSparseDay(p, now) <= at / DAY <= LastSparseDay(p, now)
  {
    assert at * SECOND / (DAY * SECOND) == at / DAY;
  }

  /** With a non-negative dense window the sparse window touches at most KeepDays + 1 days. */
  lemma SparseDaysAtMost(p: Policy, now: int)
    requires 0 <= p.keepHours
    ensures SparseDays(p, now) <= if 0 <= p.keepDays then p.keepDays + 1 else 0
  {
    var unit := DAY * SECOND;
    assert LastSparseDay(p, now) <= now / unit;
    assert FirstSparseDay(p, now) == now / unit - p.keepDays;
  }

  /** The size bound: after a prune a group holds at most the floor, the dense artifacts,
      and one artifact per sparse day. */
  lemma SizeBound(s: set<Artifact>, p: Policy, now: int)
    requires OneGroup(s) && DistinctTimes(s)
    ensures |Survivors(s, p, now)|
            <= p.Floor() + |set a | a in s && Dense(a.at, p, now)| + SparseDays(p, now)
  {
    var kept := Survivors(s, p, now);
    var top := set a | a in s && |Newer(s, a)| < p.Floor();
    var dense := set a | a in s && Dense(a.at, p, now);
    var sparse := kept - top - dense;
    AtMostFloor(s, p.Floor());
    forall a | a in sparse
      ensures NewestOfDay(s, a) && FirstSparseDay(p, now) <= a.at / DAY <= LastSparseDay(p, now)
    {
      SparseDayInWindow(a.at, p, now);
    }
    IntervalBound(sparse, (a: Artifact) => a.at / DAY, FirstSparseDay(p, now), LastSparseDay(p, now));
    SubsetCardinality(kept, top + dense + sparse);
  }
}
