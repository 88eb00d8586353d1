/** The planner and the two pruners that share it, as the loops that run. */
module Prune {
  import opened Artifacts
  import opened Calendar
  import opened Common
  import opened Grammar
  import opened Retention

  // ---- the verdict on a listing -------------------------------------------

  /** How many entries of `a`'s group are at least as new, repeated entries included. */
  function CountNotOlder(s: seq<Artifact>, a: Artifact): nat {
    if s == [] then 0
    else CountNotOlder(s[1..], a) + if SameGroup(a, s[0]) && a.at <= s[0].at then 1 else 0
  }

  /** What the planner selects from a listing: some entry for the artifact lies beyond the
      floor, and the artifact is aged out. */
  ghost predicate Picked(s: seq<Artifact>, a: Artifact, p: Policy, now: int) {
    CountNotOlder(s, a) > p.Floor() && ShouldDelete(a.at, p, now, NewestOfDay(Elements(s), a))
  }

  /** What parsing guarantees of any listing: an instant within a group, and a name,
      identify the artifact, and no node holds a slash. */
  ghost predicate Consistent(s: seq<Artifact>) {
    && (forall a, b :: a in s && b in s && SameGroup(a, b) && a.at == b.at ==> a == b)
    && (forall a, b :: a in s && b in s && a.name == b.name ==> a == b)
    && (forall a :: a in s ==> '/' !in a.node)
  }

  lemma {:induction false} CountConcat(s: seq<Artifact>, t: seq<Artifact>, a: Artifact)
    ensures CountNotOlder(s + t, a) == CountNotOlder(s, a) + CountNotOlder(t, a)
  {
    if s == [] {
      assert s + t == t;
    } else {
      assert (s + t)[1..] == s[1..] + t;
      CountConcat(s[1..], t, a);
    }
  }

  ghost function NotOlder(s: seq<Artifact>, a: Artifact): set<Artifact> {
    set b | b in s && SameGroup(a, b) && a.at <= b.at
  }

  lemma {:induction false} CountIsCardinality(s: seq<Artifact>, a: Artifact)
    requires NoRepeats(s)
    ensures CountNotOlder(s, a) == |NotOlder(s, a)|
  {
    if s != [] {
      CountIsCardinality(s[1..], a);
      if SameGroup(a, s[0]) && a.at <= s[0].at {
        assert NotOlder(s, a) == NotOlder(s[1..], a) + {s[0]};
        assert s[0] !in s[1..];
      } else {
        assert NotOlder(s, a) == NotOlder(s[1..], a);
      }
    }
  }

  /** Over a listing that names each artifact once, the planner selects exactly what the
      rules condemn. */
  lemma PickedIsDoomed(s: seq<Artifact>, a: Artifact, p: Policy, now: int)
    requires Consistent(s) && NoRepeats(s) && a in s
    ensures Picked(s, a, p, now) <==> Doomed(Elements(s), a, p, now)
  {
    CountIsRank(s, a);
  }

  lemma CountIsRank(s: seq<Artifact>, a: Artifact)
    requires Consistent(s) && NoRepeats(s) && a in s
    ensures CountNotOlder(s, a) == |Newer(Elements(s), a)| + 1
  {
    CountIsCardinality(s, a);
    NotOlderIsNewer(s, a);
  }

  lemma NotOlderIsNewer(s: seq<Artifact>, a: Artifact)
    requires Consistent(s) && a in s
    ensures NotOlder(s, a) == Newer(Elements(s), a) + {a} && a !in Newer(Elements(s), a)
  {
    forall b
      ensures b in NotOlder(s, a) <==> b in Newer(Elements(s), a) || b == a
    {
    }
  }

  lemma {:induction false} CountAtLeast(s: seq<Artifact>, a: Artifact)
    ensures CountNotOlder(s, a) >= |NotOlder(s, a)|
  {
    if s != [] {
      CountAtLeast(s[1..], a);
      if SameGroup(a, s[0]) && a.at <= s[0].at {
        assert NotOlder(s, a) == NotOlder(s[1..], a) + {s[0]};
      } else {
        assert NotOlder(s, a) == NotOlder(s[1..], a);
      }
    }
  }

  /** The policy under which an artifact is the last one inside the floor. */
  ghost function LastInFloor(s: seq<Artifact>, a: Artifact): Policy {
    Policy(0, 0, |NotOlder(s, a)|, true)
  }

  /** A second entry for an artifact pushes it out of its own floor. */
  lemma RepeatIsSelected(s: seq<Artifact>, i: nat, j: nat)
    requires i < j < |s| && s[i] == s[j]
    ensures var p, now := LastInFloor(s, s[i]), s[i].at * SECOND + 1;
            Picked(s, s[i], p, now) && !Doomed(Elements(s), s[i], p, now)
  {
    var a := s[i];
    var x, y := s[..i], s[i + 1..];
    assert s == x + ([a] + y);
    CountConcat(x, [a] + y, a);
    CountConcat([a], y, a);
    CountConcat(x, y, a);
    CountAtLeast(x + y, a);
    assert a in y by {
      assert y[j - i - 1] == a;
    }
    assert NotOlder(x + y, a) == NotOlder(s, a);
    StrictSubsetCardinality(Newer(Elements(s), a), NotOlder(s, a), a);
  }

  /** The planner agrees with the rules, at every policy and clock, exactly over listings
      that name no artifact twice. */
  lemma ExactIffNoRepeats(s: seq<Artifact>)
    requires Consistent(s)
    ensures (forall a, p, now :: a in s ==> (Picked(s, a, p, now) <==> Doomed(Elements(s), a, p, now))) <==>
            NoRepeats(s)
  {
    if NoRepeats(s) {
      forall a, p, now | a in s
        ensures Picked(s, a, p, now) <==> Doomed(Elements(s), a, p, now)
      {
        PickedIsDoomed(s, a, p, now);
      }
    } else {
      var i, j :| 0 <= i < j < |s| && s[i] == s[j];
      RepeatIsSelected(s, i, j);
    }
  }

  // ---- one group ----------------------------------------------------------

  /** The artifacts of one (node, stack). */
  ghost predicate OneGroupOf(s: seq<Artifact>) {
    Consistent(s) && forall a, b :: a in s && b in s ==> SameGroup(a, b)
  }

  ghost predicate NewestFirst(s: seq<Artifact>) {
    forall i, j :: 0 <= i < j < |s| ==> s[i].at >= s[j].at
  }

  function Insert(a: Artifact, s: seq<Artifact>): (r: seq<Artifact>)
    ensures multiset(r) == multiset(s) + multiset{a}
  {
    if s == [] || a.at >= s[0].at then [a] + s
    else
      assert s == [s[0]] + s[1..];
      [s[0]] + Insert(a, s[1..])
  }

  /** `sort.Slice` by descending time. */
  function SortNewestFirst(s: seq<Artifact>): (r: seq<Artifact>)
    ensures multiset(r) == multiset(s)
  {
    if s == [] then []
    else
      assert s == [s[0]] + s[1..];
      Insert(s[0], SortNewestFirst(s[1..]))
  }

  lemma {:induction false} InsertInOrder(a: Artifact, s: seq<Artifact>)
    requires NewestFirst(s)
    ensures NewestFirst(Insert(a, s))
  {
    if s != [] && a.at < s[0].at {
      InsertInOrder(a, s[1..]);
      var tail := Insert(a, s[1..]);
      forall k | 0 <= k < |tail|
        ensures s[0].at >= tail[k].at
      {
        assert tail[k] in multiset(tail);
      }
    }
  }

  lemma {:induction false} InsertCounts(x: Artifact, s: seq<Artifact>, a: Artifact)
    ensures CountNotOlder(Insert(x, s), a) == CountNotOlder([x], a) + CountNotOlder(s, a)
  {
    if s == [] || x.at >= s[0].at {
      CountConcat([x], s, a);
    } else {
      InsertCounts(x, s[1..], a);
      CountConcat([s[0]], Insert(x, s[1..]), a);
      CountConcat([s[0]], s[1..], a);
      assert s == [s[0]] + s[1..];
    }
  }

  lemma {:induction false} SortCounts(s: seq<Artifact>, a: Artifact)
    ensures CountNotOlder(SortNewestFirst(s), a) == CountNotOlder(s, a)
  {
    if s != [] {
      SortCounts(s[1..], a);
      InsertCounts(s[0], SortNewestFirst(s[1..]), a);
      CountConcat([s[0]], s[1..], a);
      assert s == [s[0]] + s[1..];
    }
  }

  lemma {:induction false} SortOrders(s: seq<Artifact>)
    ensures NewestFirst(SortNewestFirst(s))
  {
    if s != [] {
      SortOrders(s[1..]);
      InsertInOrder(s[0], SortNewestFirst(s[1..]));
    }
  }

  lemma SortKeepsGroup(s: seq<Artifact>)
    ensures var r := SortNewestFirst(s);
            |r| == |s| && Elements(r) == Elements(s) && NewestFirst(r) && (OneGroupOf(s) ==> OneGroupOf(r))
  {
    var r := SortNewestFirst(s);
    SortOrders(s);
    assert |multiset(r)| == |multiset(s)|;
    assert forall x :: x in r <==> x in multiset(r);
    assert forall x :: x in s <==> x in multiset(s);
  }

  /** In the sorted group the entries at least as new as `a` are exactly those in front. */
  lemma {:induction false} CountIsBoundary(s: seq<Artifact>, a: Artifact, j: nat)
    requires NewestFirst(s) && (forall b :: b in s ==> SameGroup(a, b)) && j < |s|
    ensures s[j].at >= a.at <==> j < CountNotOlder(s, a)
  {
    if j > 0 {
      CountIsBoundary(s[1..], a, j - 1);
    } else if s[0].at < a.at {
      NoneNotOlder(s, a);
    }
  }

  lemma {:induction false} NoneNotOlder(s: seq<Artifact>, a: Artifact)
    requires forall b :: b in s ==> b.at < a.at
    ensures CountNotOlder(s, a) == 0
  {
    if s != [] {
      NoneNotOlder(s[1..], a);
    }
  }

  /** The newest artifact of each day of the sorted group, first come first kept. */
  method IndexDays(arts: seq<Artifact>) returns (newestPerDay: map<int, Artifact>)
    requires NewestFirst(arts)
    ensures DaysIndexed(arts, newestPerDay)
  {
    newestPerDay := map[];
    for i := 0 to |arts|
      invariant forall d :: d in newestPerDay ==> newestPerDay[d] in arts[..i] && newestPerDay[d].at / DAY == d
      invariant forall j :: 0 <= j < i ==>
                              arts[j].at / DAY in newestPerDay && newestPerDay[arts[j].at / DAY].at >= arts[j].at
    {
      var day := arts[i].at / DAY;
      if day !in newestPerDay {
        newestPerDay := newestPerDay[day := arts[i]];
      }
    }
  }

  /** The day index of a group: each day maps to its newest artifact. */
  ghost predicate DaysIndexed(arts: seq<Artifact>, newestPerDay: map<int, Artifact>) {
    && (forall d :: d in newestPerDay ==> newestPerDay[d] in arts && newestPerDay[d].at / DAY == d)
    && (forall a :: a in arts ==> a.at / DAY in newestPerDay && newestPerDay[a.at / DAY].at >= a.at)
  }

  lemma DayEntryIsNewest(arts: seq<Artifact>, entry: Artifact, a: Artifact)
    requires OneGroupOf(arts) && a in arts && entry in arts && SameDay(entry, a)
    requires forall b :: b in arts && SameDay(b, a) ==> entry.at >= b.at
    ensures entry.name == a.name <==> NewestOfDay(Elements(arts), a)
  {
    if NewestOfDay(Elements(arts), a) {
      assert entry in Elements(arts);
    }
  }

  /** The planner's test on the `i`-th entry: beyond the floor, and aged out. */
  predicate Condemns(arts: seq<Artifact>, i: nat, newestPerDay: map<int, Artifact>, policy: Policy, now: int)
    requires OneGroupOf(arts) && i < |arts| && DaysIndexed(arts, newestPerDay)
    ensures Condemns(arts, i, newestPerDay, policy, now) <==> Condemned(arts, i, policy, now)
  {
    DayEntryIsNewest(arts, newestPerDay[arts[i].at / DAY], arts[i]);
    if i < policy.Floor() then false
    else ShouldDelete(arts[i].at, policy, now, newestPerDay[arts[i].at / DAY].name == arts[i].name)
  }

  ghost predicate Condemned(arts: seq<Artifact>, i: nat, p: Policy, now: int)
    requires i < |arts|
  {
    i >= p.Floor() && ShouldDelete(arts[i].at, p, now, NewestOfDay(Elements(arts), arts[i]))
  }

  ghost predicate SelectedUpTo(arts: seq<Artifact>, i: nat, del: seq<Artifact>, p: Policy, now: int)
    requires i <= |arts|
  {
    forall a :: a in del <==> exists j :: 0 <= j < i && arts[j] == a && Condemned(arts, j, p, now)
  }

  lemma SelectOneMore(arts: seq<Artifact>, i: nat, del: seq<Artifact>, p: Policy, now: int)
    requires i < |arts| && SelectedUpTo(arts, i, del, p, now)
    ensures SelectedUpTo(arts, i + 1, if Condemned(arts, i, p, now) then del + [arts[i]] else del, p, now)
  {
  }

  /** The deciding loop over a sorted group. */
  method DecideSorted(arts: seq<Artifact>, newestPerDay: map<int, Artifact>, policy: Policy, now: int)
    returns (del: seq<Artifact>, kept: nat)
    requires OneGroupOf(arts) && NewestFirst(arts) && DaysIndexed(arts, newestPerDay)
    ensures forall a :: a in del <==> exists i :: 0 <= i < |arts| && arts[i] == a && Condemned(arts, i, policy, now)
    ensures |del| + kept == |arts|
  {
    del, kept := [], 0;
    for i := 0 to |arts|
      invariant |del| + kept == i
      invariant SelectedUpTo(arts, i, del, policy, now)
    {
      SelectOneMore(arts, i, del, policy, now);
      var condemned := Condemns(arts, i, newestPerDay, policy, now);
      if condemned {
        del := del + [arts[i]];
      } else {
        kept := kept + 1;
      }
    }
  }

  /** Being condemned at some index of the sorted group is being picked. */
  lemma CondemnedSomewhere(arts: seq<Artifact>, a: Artifact, p: Policy, now: int)
    requires OneGroupOf(arts) && NewestFirst(arts) && a in arts
    ensures (exists i :: 0 <= i < |arts| && arts[i] == a && Condemned(arts, i, p, now)) <==> Picked(arts, a, p, now)
  {
    var last := LastEntry(arts, a);
    forall i | 0 <= i < |arts| && arts[i] == a
      ensures i <= last
    {
      CountIsBoundary(arts, a, i);
    }
    assert Picked(arts, a, p, now) <==> Condemned(arts, last, p, now);
  }

  /** The last entry for an artifact sits where its count says. */
  lemma LastEntry(arts: seq<Artifact>, a: Artifact) returns (last: nat)
    requires OneGroupOf(arts) && NewestFirst(arts) && a in arts
    ensures last + 1 == CountNotOlder(arts, a) && last < |arts| && arts[last] == a
  {
    var k :| 0 <= k < |arts| && arts[k] == a;
    CountAtMost(arts, a);
    CountIsBoundary(arts, a, k);
    last := CountNotOlder(arts, a) - 1;
    CountIsBoundary(arts, a, last);
  }

  lemma {:induction false} CountAtMost(s: seq<Artifact>, a: Artifact)
    ensures CountNotOlder(s, a) <= |s|
  {
    if s != [] {
      CountAtMost(s[1..], a);
    }
  }

  /** The planner's treatment of one group: rank by sorting, note the newest artifact of
      each day, then decide each entry in turn. */
  method PlanGroup(group: seq<Artifact>, policy: Policy, now: int) returns (del: seq<Artifact>, kept: nat)
    requires OneGroupOf(group)
    ensures forall a :: a in del <==> a in group && Picked(group, a, policy, now)
    ensures |del| + kept == |group|
  {
    var arts := SortNewestFirst(group);
    SortKeepsGroup(group);
    var newestPerDay := IndexDays(arts);
    del, kept := DecideSorted(arts, newestPerDay, policy, now);
    forall a
      ensures a in del <==> a in group && Picked(group, a, policy, now)
    {
      assert a in arts <==> a in Elements(arts);
      assert a in group <==> a in Elements(group);
      if a in arts {
        CondemnedSomewhere(arts, a, policy, now);
        SortCounts(group, a);
      }
    }
  }

  // ---- all groups ---------------------------------------------------------

  /** The entries whose key lies in `keys`, in order. */
  function OfKeys(s: seq<Artifact>, keys: set<string>): seq<Artifact> {
    if s == [] then []
    else (if GroupKey(s[0]) in keys then [s[0]] else []) + OfKeys(s[1..], keys)
  }

  lemma {:induction false} OfKeysConcat(s: seq<Artifact>, t: seq<Artifact>, keys: set<string>)
    ensures OfKeys(s + t, keys) == OfKeys(s, keys) + OfKeys(t, keys)
  {
    if s == [] {
      assert s + t == t;
    } else {
      assert (s + t)[1..] == s[1..] + t;
      OfKeysConcat(s[1..], t, keys);
      var one := if GroupKey(s[0]) in keys then [s[0]] else [];
      assert OfKeys(s + t, keys) == one + (OfKeys(s[1..], keys) + OfKeys(t, keys));
    }
  }

  lemma {:induction false} OfKeysMeaning(s: seq<Artifact>, keys: set<string>, a: Artifact)
    ensures a in OfKeys(s, keys) <==> a in s && GroupKey(a) in keys
  {
    if s != [] {
      OfKeysMeaning(s[1..], keys, a);
      assert a in s <==> a == s[0] || a in s[1..];
    }
  }

  lemma {:induction false} OfKeysLength(s: seq<Artifact>, keys: set<string>, key: string)
    requires key !in keys
    ensures |OfKeys(s, keys + {key})| == |OfKeys(s, keys)| + |OfKeys(s, {key})|
  {
    if s != [] {
      OfKeysLength(s[1..], keys, key);
    }
  }

  lemma {:induction false} OfAllKeys(s: seq<Artifact>, keys: set<string>)
    requires forall a :: a in s ==> GroupKey(a) in keys
    ensures OfKeys(s, keys) == s
  {
    if s != [] {
      assert s[0] in s;
      OfAllKeys(s[1..], keys);
      assert s == [s[0]] + s[1..];
    }
  }

  lemma {:induction false} OfKeyCounts(s: seq<Artifact>, a: Artifact)
    requires '/' !in a.node && forall b :: b in s ==> '/' !in b.node
    ensures CountNotOlder(OfKeys(s, {GroupKey(a)}), a) == CountNotOlder(s, a)
  {
    if s != [] {
      assert s[0] in s;
      OfKeyCounts(s[1..], a);
      GroupKeySeparates(a, s[0]);
      CountConcat(if GroupKey(s[0]) in {GroupKey(a)} then [s[0]] else [], OfKeys(s[1..], {GroupKey(a)}), a);
    }
  }

  /** The groups partition the listing: each key holds its own entries, in listing order. */
  ghost predicate GroupsOf(groups: map<string, seq<Artifact>>, s: seq<Artifact>) {
    && (forall k :: k in groups ==> groups[k] == OfKeys(s, {k}))
    && (forall a :: a in s ==> GroupKey(a) in groups)
  }

  /** The verdict within its own group is the verdict on the whole listing. */
  lemma VerdictIsLocal(s: seq<Artifact>, key: string, a: Artifact, p: Policy, now: int)
    requires Consistent(s) && a in s && GroupKey(a) == key
    ensures Picked(OfKeys(s, {key}), a, p, now) <==> Picked(s, a, p, now)
  {
    var g := OfKeys(s, {key});
    OfKeyCounts(s, a);
    forall b | SameGroup(a, b)
      ensures b in Elements(g) <==> b in Elements(s)
    {
      OfKeysMeaning(s, {key}, b);
    }
  }

  lemma GroupIsOne(s: seq<Artifact>, key: string)
    requires Consistent(s)
    ensures OneGroupOf(OfKeys(s, {key}))
  {
    var g := OfKeys(s, {key});
    forall a | a in g
      ensures a in s && GroupKey(a) == key
    {
      OfKeysMeaning(s, {key}, a);
    }
    forall a, b | a in g && b in g
      ensures SameGroup(a, b)
    {
      GroupKeySeparates(a, b);
    }
  }

  lemma GroupSelection(s: seq<Artifact>, key: string, del: seq<Artifact>, p: Policy, now: int)
    requires Consistent(s)
    requires forall a :: a in del <==> a in OfKeys(s, {key}) && Picked(OfKeys(s, {key}), a, p, now)
    ensures forall a :: a in del <==> a in s && GroupKey(a) == key && Picked(s, a, p, now)
  {
    forall a
      ensures a in del <==> a in s && GroupKey(a) == key && Picked(s, a, p, now)
    {
      OfKeysMeaning(s, {key}, a);
      if a in s && GroupKey(a) == key {
        VerdictIsLocal(s, key, a, p, now);
      }
    }
  }

  /** `planPrune`: what it selects is exactly what is picked in the whole listing, and every
      entry is either selected or counted as kept. */
  method PlanPrune(groups: map<string, seq<Artifact>>, ghost s: seq<Artifact>, policy: Policy, now: int)
    returns (del: seq<Artifact>, kept: nat)
    requires Consistent(s) && GroupsOf(groups, s)
    ensures forall a :: a in del <==> a in s && Picked(s, a, policy, now)
    ensures |del| + kept == |s|
  {
    del, kept := [], 0;
    var todo := groups.Keys;
    ghost var done: set<string> := {};
    NoKeys(s);
    while todo != {}
      invariant todo !! done && todo + done == groups.Keys
      invariant forall a :: a in del <==> a in s && GroupKey(a) in done && Picked(s, a, policy, now)
      invariant |del| + kept == |OfKeys(s, done)|
      decreases todo
    {
      var key :| key in todo;
      GroupIsOne(s, key);
      var d, k := PlanGroup(groups[key], policy, now);
      GroupSelection(s, key, d, policy, now);
      OfKeysLength(s, done, key);
      del, kept, todo := del + d, kept + k, todo - {key};
      done := done + {key};
    }
    OfAllKeys(s, done);
  }

  lemma {:induction false} NoKeys(s: seq<Artifact>)
    ensures OfKeys(s, {}) == []
  {
    if s != [] {
      NoKeys(s[1..]);
    }
  }

  // ---- grouping a listing -------------------------------------------------

  predicate Skipped(a: Artifact, policy: Policy) {
    a.stack == "" && !policy.includeLegacy
  }

  /** What one listed name contributes: an artifact to judge, or nothing. */
  function Judged(n: string, policy: Policy): seq<Artifact> {
    match ParseArtifact(n)
    case Some(a) => if Skipped(a, policy) then [] else [a]
    case None => []
  }

  /** Whether a listed name is a legacy archive that the policy leaves alone. */
  function LegacyOne(n: string, policy: Policy): nat {
    match ParseArtifact(n)
    case Some(a) => if Skipped(a, policy) then 1 else 0
    case None => 0
  }

  /** The artifacts of a listing that the policy judges, in listing order. */
  function Candidates(names: seq<string>, policy: Policy): seq<Artifact> {
    if names == [] then [] else Candidates(names[..|names| - 1], policy) + Judged(names[|names| - 1], policy)
  }

  function LegacyCount(names: seq<string>, policy: Policy): nat {
    if names == [] then 0 else LegacyCount(names[..|names| - 1], policy) + LegacyOne(names[|names| - 1], policy)
  }

  function ParsedCount(names: seq<string>): nat {
    if names == [] then 0
    else ParsedCount(names[..|names| - 1]) + if ParseArtifact(names[|names| - 1]).Some? then 1 else 0
  }

  /** Every parsed name is either judged or counted as a skipped legacy archive. */
  lemma {:induction false} JudgedOrSkipped(names: seq<string>, policy: Policy)
    ensures LegacyCount(names, policy) + |Candidates(names, policy)| == ParsedCount(names)
  {
    if names != [] {
      JudgedOrSkipped(names[..|names| - 1], policy);
    }
  }

  lemma {:induction false} CandidateIsParsed(names: seq<string>, policy: Policy, a: Artifact)
    ensures a in Candidates(names, policy) <==>
            !Skipped(a, policy) && exists n :: n in names && ParseArtifact(n) == Some(a)
  {
    if names != [] {
      var init, last := names[..|names| - 1], names[|names| - 1];
      CandidateIsParsed(init, policy, a);
      assert forall n :: n in names <==> n in init || n == last;
      assert a in Candidates(names, policy) <==> a in Candidates(init, policy) || a in Judged(last, policy);
    }
  }

  /** What is judged: every listed name that parses, except that an archive without a stack
      is left alone unless legacy archives are included. */
  lemma CandidatesMeaning(names: seq<string>, policy: Policy, a: Artifact)
    ensures a in Candidates(names, policy) <==>
            (a.stack != "" || policy.includeLegacy) && exists n :: n in names && ParseArtifact(n) == Some(a)
  {
    CandidateIsParsed(names, policy, a);
  }

  /** Any listing at all is consistent: the name grammar leaves no ties and no clashes. */
  lemma ListingIsConsistent(names: seq<string>, policy: Policy)
    ensures Consistent(Candidates(names, policy))
  {
    var s := Candidates(names, policy);
    forall a, b | a in s && b in s
      ensures AgreeIfAlike(a, b)
    {
      ListedPair(names, policy, a, b);
    }
    AlikeIsConsistent(s);
  }

  lemma AlikeIsConsistent(s: seq<Artifact>)
    requires forall a, b :: a in s && b in s ==> AgreeIfAlike(a, b)
    ensures Consistent(s)
  {
    assert forall a :: a in s ==> AgreeIfAlike(a, a);
  }

  ghost predicate AgreeIfAlike(a: Artifact, b: Artifact) {
    && (SameGroup(a, b) && a.at == b.at ==> a == b)
    && (a.name == b.name ==> a == b)
    && '/' !in a.node
  }

  lemma ListedPair(names: seq<string>, policy: Policy, a: Artifact, b: Artifact)
    requires a in Candidates(names, policy) && b in Candidates(names, policy)
    ensures AgreeIfAlike(a, b)
  {
    var m := ListedAs(names, policy, a);
    var n := ListedAs(names, policy, b);
    PairIsConsistent(m, n, a, b);
  }

  lemma ListedAs(names: seq<string>, policy: Policy, a: Artifact) returns (n: string)
    requires a in Candidates(names, policy)
    ensures n in names && ParseArtifact(n) == Some(a)
  {
    CandidateIsParsed(names, policy, a);
    n :| n in names && ParseArtifact(n) == Some(a);
  }

  lemma PairIsConsistent(m: string, n: string, a: Artifact, b: Artifact)
    requires ParseArtifact(m) == Some(a) && ParseArtifact(n) == Some(b)
    ensures AgreeIfAlike(a, b)
  {
    ParsedNameIsRebuilt(m);
    ParsedNameIsRebuilt(n);
    if SameGroup(a, b) && a.at == b.at {
      OneNamePerInstant(m, n);
    }
  }

  /** Appending one artifact to the group its key names. */
  function File(groups: map<string, seq<Artifact>>, a: Artifact): map<string, seq<Artifact>> {
    groups[GroupKey(a) := (if GroupKey(a) in groups then groups[GroupKey(a)] else []) + [a]]
  }

  lemma FileKeepsGroups(groups: map<string, seq<Artifact>>, s: seq<Artifact>, a: Artifact)
    requires GroupsOf(groups, s)
    ensures GroupsOf(File(groups, a), s + [a])
  {
    var key := GroupKey(a);
    forall k
      ensures OfKeys(s + [a], {k}) == OfKeys(s, {k}) + if k == key then [a] else []
    {
      OfKeysConcat(s, [a], {k});
    }
    if key !in groups {
      NoneOfKey(s, key);
    }
  }

  lemma {:induction false} NoneOfKey(s: seq<Artifact>, key: string)
    requires forall a :: a in s ==> GroupKey(a) != key
    ensures OfKeys(s, {key}) == []
  {
    if s != [] {
      assert s[0] in s;
      NoneOfKey(s[1..], key);
    }
  }

  /** `groupArtifacts`: the groups partition what the policy judges; names that do not
      parse are ignored and legacy archives are counted apart. */
  method GroupArtifacts(names: seq<string>, policy: Policy) returns (groups: map<string, seq<Artifact>>, skipped: nat)
    ensures GroupsOf(groups, Candidates(names, policy))
    ensures skipped == LegacyCount(names, policy)
  {
    groups, skipped := map[], 0;
    ghost var s: seq<Artifact> := [];
    for i := 0 to |names|
      invariant s == Candidates(names[..i], policy) && GroupsOf(groups, s)
      invariant skipped == LegacyCount(names[..i], policy)
    {
      assert names[..i + 1][..i] == names[..i];
      var one := Judged(names[i], policy);
      skipped := skipped + LegacyOne(names[i], policy);
      if one == [] {
        assert s + one == s;
      } else {
        FileKeepsGroups(groups, s, one[0]);
        groups := File(groups, one[0]);
        assert one == [one[0]];
      }
      s := s + one;
    }
    assert names[..|names|] == names;
  }

  // ---- what a prune selects -----------------------------------------------

  /** The names a prune of this listing deletes. */
  ghost function PickedNames(names: seq<string>, policy: Policy, now: int): set<string> {
    var s := Candidates(names, policy);
    set a | a in s && Picked(s, a, policy, now) :: a.name
  }

  /** The names the rules condemn among the artifacts of this listing. */
  ghost function DoomedNames(names: seq<string>, policy: Policy, now: int): set<string> {
    var s := Candidates(names, policy);
    set a | a in s && Doomed(Elements(s), a, policy, now) :: a.name
  }

  ghost predicate DistinctLeaves(names: seq<string>) {
    forall i, j :: 0 <= i < j < |names| ==> Base(names[i]) != Base(names[j])
  }

  lemma {:induction false} DistinctLeavesNoRepeats(names: seq<string>, policy: Policy)
    requires DistinctLeaves(names)
    ensures NoRepeats(Candidates(names, policy))
  {
    if names != [] {
      var init, last := names[..|names| - 1], names[|names| - 1];
      DistinctLeavesNoRepeats(init, policy);
      var one := Judged(last, policy);
      if one != [] {
        LeafNotYetListed(init, last, policy, one[0]);
        AppendOne(Candidates(init, policy), one[0]);
        assert one == [one[0]];
      } else {
        assert Candidates(init, policy) + one == Candidates(init, policy);
      }
    }
  }

  lemma LeafNotYetListed(names: seq<string>, n: string, policy: Policy, a: Artifact)
    requires ParseArtifact(n) == Some(a) && forall m :: m in names ==> Base(m) != Base(n)
    ensures a !in Candidates(names, policy)
  {
    if a in Candidates(names, policy) {
      CandidateIsParsed(names, policy, a);
      var m :| m in names && ParseArtifact(m) == Some(a);
      ParsedNameIsRebuilt(m);
      ParsedNameIsRebuilt(n);
    }
  }

  /** Over a listing of distinct leaves a prune deletes exactly what the rules condemn. */
  lemma DistinctListingIsExact(names: seq<string>, policy: Policy, now: int)
    requires DistinctLeaves(names)
    ensures PickedNames(names, policy, now) == DoomedNames(names, policy, now)
  {
    var s := Candidates(names, policy);
    ListingIsConsistent(names, policy);
    DistinctLeavesNoRepeats(names, policy);
    forall a | a in s
      ensures Picked(s, a, policy, now) <==> Doomed(Elements(s), a, policy, now)
    {
      PickedIsDoomed(s, a, policy, now);
    }
  }

  /** A nested key with the same leaf counts as a second copy: over a bucket that lists both,
      the only artifact of a stack is deleted once it is aged out, floor or no floor. */
  lemma RepeatedLeafBreaksFloor(n: string, a: Artifact, policy: Policy, now: int)
    requires ParseArtifact(n) == Some(a) && n != "" && '/' !in n && !Skipped(a, policy)
    requires policy.Floor() == 1 && Expired(a.at, policy, now) && !Dense(a.at, policy, now)
    ensures var names := [n, "backup-old/" + n];
            a.name in PickedNames(names, policy, now) && DoomedNames(names, policy, now) == {}
  {
    ListedTwice(n, a, policy);
    CopyBreaksFloor(a, policy, now);
  }

  lemma ListedTwice(n: string, a: Artifact, policy: Policy)
    requires ParseArtifact(n) == Some(a) && n != "" && '/' !in n && !Skipped(a, policy)
    ensures Candidates([n, "backup-old/" + n], policy) == [a, a]
  {
    var nested := "backup-old/" + n;
    NestedLeaf(n);
    assert Judged(n, policy) == [a];
    assert Judged(nested, policy) == [a] by {
      SameLeafSameParse(nested, n);
    }
    CandidatesOfTwo(n, nested, policy);
  }

  lemma SameLeafSameParse(m: string, n: string)
    requires Base(m) == Base(n)
    ensures ParseArtifact(m) == ParseArtifact(n)
  {
  }

  lemma CandidatesOfTwo(m: string, n: string, policy: Policy)
    ensures Candidates([m, n], policy) == Judged(m, policy) + Judged(n, policy)
  {
    assert [m, n][..1] == [m] && [m][..0] == [];
    assert Candidates([m], policy) == [] + Judged(m, policy);
  }

  lemma CopyBreaksFloor(a: Artifact, policy: Policy, now: int)
    requires policy.Floor() == 1 && Expired(a.at, policy, now) && !Dense(a.at, policy, now)
    ensures Picked([a, a], a, policy, now) && forall b :: b in [a, a] ==> !Doomed(Elements([a, a]), b, policy, now)
  {
    var s := [a, a];
    assert s[1..] == [a] && [a][1..] == [];
    assert CountNotOlder([a], a) == 1 + CountNotOlder([], a);
    assert CountNotOlder(s, a) == 2;
    assert Newer(Elements(s), a) == {};
  }

  lemma NestedLeaf(n: string)
    requires n != "" && '/' !in n
    ensures Base("backup-old/" + n) == n
  {
    var s := "backup-old/" + n;
    assert s[|s| - 1] == n[|n| - 1];
    assert n[|n| - 1] in n;
    assert StripSlashes(s) == s;
    AfterSlashOf("backup-old", n);
    assert s == "backup-old" + "/" + n;
  }

  /** The selection, as the names to delete, in the planner's order. */
  method Select(names: seq<string>, policy: Policy, now: int) returns (del: seq<string>, kept: nat, skipped: nat)
    ensures Elements(del) == PickedNames(names, policy, now)
    ensures |del| + kept == |Candidates(names, policy)|
    ensures skipped == LegacyCount(names, policy)
  {
    var groups, s := GroupArtifacts(names, policy);
    ListingIsConsistent(names, policy);
    var plan, k := PlanPrune(groups, Candidates(names, policy), policy, now);
    kept, skipped := k, s;
    del := seq(|plan|, i requires 0 <= i < |plan| => plan[i].name);
    PlanNames(plan, del, names, policy, now);
  }

  lemma PlanNames(plan: seq<Artifact>, del: seq<string>, names: seq<string>, policy: Policy, now: int)
    requires |del| == |plan| && forall i :: 0 <= i < |plan| ==> del[i] == plan[i].name
    requires var s := Candidates(names, policy); forall a :: a in plan <==> a in s && Picked(s, a, policy, now)
    ensures Elements(del) == PickedNames(names, policy, now)
  {
    forall n | n in Elements(del)
      ensures n in PickedNames(names, policy, now)
    {
      var i :| 0 <= i < |del| && del[i] == n;
      assert plan[i] in plan;
    }
    forall n | n in PickedNames(names, policy, now)
      ensures n in Elements(del)
    {
      var a :| a in plan && a.name == n;
      var i :| 0 <= i < |plan| && plan[i] == a;
      assert del[i] == n;
    }
  }

  // ---- sizes --------------------------------------------------------------

  /** The artifacts of one (node, stack) in a listing. */
  ghost function GroupMembers(s: seq<Artifact>, g: Artifact): set<Artifact> {
    set a | a in s && SameGroup(g, a)
  }

  /** After a prune of any listing a (node, stack) holds at most the floor, the dense
      artifacts, and KeepDays + 1 more. */
  lemma ListingSizeBound(names: seq<string>, policy: Policy, now: int, g: Artifact)
    requires 0 <= policy.keepHours
    ensures var group := GroupMembers(Candidates(names, policy), g);
            && DistinctTimes(group)
            && |Survivors(group, policy, now)|
               <= policy.Floor() + |set a | a in group && Dense(a.at, policy, now)| +
                  (if 0 <= policy.keepDays then policy.keepDays + 1 else 0)
            && (forall a :: a in group ==>
                              (Doomed(group, a, policy, now) <==>
                               Doomed(Elements(Candidates(names, policy)), a, policy, now)))
  {
    var s := Candidates(names, policy);
    var group := GroupMembers(s, g);
    ListingIsConsistent(names, policy);
    SizeBound(group, policy, now);
    SparseDaysAtMost(policy, now);
    forall a | a in group
      ensures Doomed(group, a, policy, now) <==> Doomed(Elements(s), a, policy, now)
    {
      GroupsAreIndependent(group, Elements(s), a, policy, now);
    }
  }

  // ---- the pruners --------------------------------------------------------

  datatype PruneResult = PruneResult(kept: nat, deleted: seq<string>, failed: seq<string>, skipped: nat)

  /** Legacy archives are never selected unless they are included. */
  lemma LegacyLeftAlone(names: seq<string>, policy: Policy, now: int, n: string, a: Artifact)
    requires ParseArtifact(n) == Some(a) && a.stack == "" && !policy.includeLegacy
    ensures a.name !in PickedNames(names, policy, now)
  {
    var s := Candidates(names, policy);
    forall b | b in s
      ensures b.name != a.name
    {
      var m := ListedAs(names, policy, b);
      PairIsConsistent(m, n, b, a);
      CandidatesMeaning(names, policy, b);
    }
  }

  /** A prune never selects a sidecar. */
  lemma SidecarNotPicked(names: seq<string>, policy: Policy, now: int, n: string)
    ensures ManifestName(n) !in PickedNames(names, policy, now)
  {
    var s := Candidates(names, policy);
    forall a | a in s
      ensures a.name != ManifestName(n)
    {
      CandidateIsParsed(names, policy, a);
      var m :| m in names && ParseArtifact(m) == Some(a);
      ParsedNameEnds(m);
    }
  }

  /** One remote leg: an object store holding archives and sidecars. */
  class Bucket {
    var objects: set<string>

    constructor (objects: set<string>)
      ensures this.objects == objects
    {
      this.objects := objects;
    }

    /** The delete loop of `PruneS3`: a dry run calls nothing, a refused DELETE counts the
        object as kept. */
    method DeleteAll(del: seq<string>, dryRun: bool, refused: set<string>)
      returns (deleted: seq<string>, failed: seq<string>)
      modifies this
      ensures Elements(failed) == if dryRun then {} else Elements(del) * refused
      ensures Elements(deleted) == Elements(del) - Elements(failed)
      ensures |deleted| + |failed| == |del|
      ensures objects == if dryRun then old(objects) else old(objects) - Elements(deleted)
    {
      deleted, failed := [], [];
      for i := 0 to |del|
        invariant Elements(failed) == if dryRun then {} else Elements(del[..i]) * refused
        invariant Elements(deleted) == Elements(del[..i]) - Elements(failed)
        invariant |deleted| + |failed| == i
        invariant objects == if dryRun then old(objects) else old(objects) - Elements(deleted)
      {
        TakeOneMore(del, i);
        if !dryRun && del[i] in refused {
          AppendOne(failed, del[i]);
          failed := failed + [del[i]];
        } else {
          AppendOne(deleted, del[i]);
          if !dryRun {
            objects := objects - {del[i]};
          }
          deleted := deleted + [del[i]];
        }
      }
      assert del[..|del|] == del;
    }

    /** `PruneS3` over the listing it got back, whatever keys that holds and however stale it
        is. `refused` are the keys whose DELETE the store rejects. Sidecars are never
        touched. */
    method Prune(listing: seq<string>, policy: Policy, now: int, dryRun: bool, refused: set<string>)
      returns (res: PruneResult)
      modifies this
      ensures Elements(res.failed) == if dryRun then {} else PickedNames(listing, policy, now) * refused
      ensures Elements(res.deleted) == PickedNames(listing, policy, now) - Elements(res.failed)
      ensures objects == if dryRun then old(objects) else old(objects) - Elements(res.deleted)
      ensures res.kept + |res.deleted| == |Candidates(listing, policy)|
      ensures res.skipped == LegacyCount(listing, policy)
      ensures forall n :: ManifestName(n) in old(objects) ==> ManifestName(n) in objects
    {
      var del, kept, skipped := Select(listing, policy, now);
      var deleted, failed := DeleteAll(del, dryRun, refused);
      res := PruneResult(kept + |failed|, deleted, failed, skipped);
      forall n | ManifestName(n) in old(objects)
        ensures ManifestName(n) in objects
      {
        SidecarNotPicked(listing, policy, now, n);
      }
    }
  }

  predicate IsSidecar(name: string) {
    |SIDECAR| <= |name| && name[|name| - |SIDECAR|..] == SIDECAR
  }

  lemma SidecarEnds(name: string)
    ensures IsSidecar(ManifestName(name))
  {
  }

  function FileNames(entries: seq<DirEntry>): seq<string> {
    if entries == [] then []
    else FileNames(entries[..|entries| - 1]) +
         (if entries[|entries| - 1].isDir then [] else [entries[|entries| - 1].name])
  }

  function ArchiveNames(entries: seq<DirEntry>): seq<string> {
    if entries == [] then []
    else ArchiveNames(entries[..|entries| - 1]) +
         (var e := entries[|entries| - 1]; if e.isDir || IsSidecar(e.name) then [] else [e.name])
  }

  /** What a directory listing is: plain names, each once. */
  ghost predicate PlainDistinct(entries: seq<DirEntry>) {
    && (forall i :: 0 <= i < |entries| ==> entries[i].name != "" && '/' !in entries[i].name)
    && (forall i, j :: 0 <= i < j < |entries| ==> entries[i].name != entries[j].name)
  }

  lemma SidecarEntryNeverParses(name: string)
    requires IsSidecar(name)
    ensures ParseArtifact(name).None?
  {
    var stem := name[..|name| - |SIDECAR|];
    assert name == ManifestName(stem);
    SidecarNeverParses(stem);
  }

  lemma CandidatesAppend(names: seq<string>, n: string, policy: Policy)
    ensures Candidates(names + [n], policy) == Candidates(names, policy) + Judged(n, policy)
    ensures LegacyCount(names + [n], policy) == LegacyCount(names, policy) + LegacyOne(n, policy)
  {
    assert (names + [n])[..|names|] == names;
  }

  /** The local leg leaves sidecars out of its listing, the bucket leg does not: both judge
      the same artifacts in the same order. */
  lemma {:induction false} SameArtifactsWithoutSidecars(entries: seq<DirEntry>, policy: Policy)
    ensures Candidates(ArchiveNames(entries), policy) == Candidates(FileNames(entries), policy)
    ensures LegacyCount(ArchiveNames(entries), policy) == LegacyCount(FileNames(entries), policy)
  {
    if entries != [] {
      var init, e := entries[..|entries| - 1], entries[|entries| - 1];
      SameArtifactsWithoutSidecars(init, policy);
      if e.isDir {
        assert ArchiveNames(entries) == ArchiveNames(init) && FileNames(entries) == FileNames(init);
      } else {
        CandidatesAppend(FileNames(init), e.name, policy);
        CandidatesAppend(ArchiveNames(init), e.name, policy);
        if IsSidecar(e.name) {
          SidecarEntryNeverParses(e.name);
          assert Candidates(FileNames(init), policy) + [] == Candidates(FileNames(init), policy);
          assert ArchiveNames(entries) == ArchiveNames(init);
        }
      }
    }
  }

  lemma {:induction false} FileNamesPlain(entries: seq<DirEntry>)
    requires PlainDistinct(entries)
    ensures DistinctLeaves(FileNames(entries))
    ensures forall n :: n in FileNames(entries) ==> n != "" && '/' !in n
    ensures forall n :: n in FileNames(entries) <==> DirEntry(n, false) in entries
  {
    if entries != [] {
      var init, e := entries[..|entries| - 1], entries[|entries| - 1];
      FileNamesPlain(init);
      if e.isDir {
        assert FileNames(entries) == FileNames(init);
      }
      assert forall n :: DirEntry(n, false) in entries <==> DirEntry(n, false) in init || e == DirEntry(n, false);
    }
  }

  /** Every selected name is a file of the directory. */
  lemma PickedIsListed(entries: seq<DirEntry>, policy: Policy, now: int, n: string)
    requires PlainDistinct(entries) && n in PickedNames(FileNames(entries), policy, now)
    ensures DirEntry(n, false) in entries
  {
    var names := FileNames(entries);
    FileNamesPlain(entries);
    var a :| a in Candidates(names, policy) && a.name == n;
    CandidateIsParsed(names, policy, a);
    var m :| m in names && ParseArtifact(m) == Some(a);
    ParsedNameIsRebuilt(m);
  }

  /** An artifact of this node and stack other than the one just written. */
  predicate OlderCopy(name: string, node: string, stack: string, keepArchive: string) {
    && name != keepArchive && name != ManifestName(keepArchive) && !IsSidecar(name)
    && match ParseArtifact(name)
       case Some(a) => a.node == node && a.stack == stack
       case None => false
  }

  /** In plain words: any other name that parses to this node and stack. */
  lemma OlderCopyMeaning(name: string, node: string, stack: string, keepArchive: string)
    ensures OlderCopy(name, node, stack, keepArchive) <==>
            && name != keepArchive && ParseArtifact(name).Some?
            && ParseArtifact(name).value.node == node && ParseArtifact(name).value.stack == stack
  {
    SidecarEnds(keepArchive);
    if IsSidecar(name) {
      SidecarEntryNeverParses(name);
    }
  }

  function OlderCopies(entries: seq<DirEntry>, node: string, stack: string, keepArchive: string): seq<string> {
    if entries == [] then []
    else
      var init, e := OlderCopies(entries[..|entries| - 1], node, stack, keepArchive), entries[|entries| - 1];
      if !e.isDir && OlderCopy(e.name, node, stack, keepArchive) then init + [e.name] else init
  }

  /** The copies of a directory listing are exactly its entries that qualify. */
  lemma {:induction false} OlderCopiesMeaning(entries: seq<DirEntry>, node: string, stack: string,
                                              keepArchive: string, n: string)
    ensures n in OlderCopies(entries, node, stack, keepArchive) <==>
              OlderCopy(n, node, stack, keepArchive) && DirEntry(n, false) in entries
  {
    if entries != [] {
      var init, e := entries[..|entries| - 1], entries[|entries| - 1];
      OlderCopiesMeaning(init, node, stack, keepArchive, n);
      assert DirEntry(n, false) in entries <==> DirEntry(n, false) in init || e == DirEntry(n, false);
    }
  }

  /** Removing the archive is reported as failed. */
  ghost predicate Reported(n: string, stuck: set<string>, files: set<string>) {
    n in stuck || (ManifestName(n) in files && ManifestName(n) in stuck)
  }

  /** The file went with one of the archives. */
  ghost predicate Gone(f: string, archives: set<string>, stuck: set<string>) {
    || (f in archives && f !in stuck)
    || (exists n :: n in archives && n !in stuck && f == ManifestName(n) && f !in stuck)
  }

  lemma GoneGrows(archives: set<string>, n: string, stuck: set<string>)
    ensures forall f :: Gone(f, archives + {n}, stuck) <==>
                          || Gone(f, archives, stuck)
                          || (f == n && f !in stuck)
                          || (f == ManifestName(n) && n !in stuck && f !in stuck)
  {
    forall f
      ensures Gone(f, archives + {n}, stuck) <==>
                || Gone(f, archives, stuck)
                || (f == n && f !in stuck)
                || (f == ManifestName(n) && n !in stuck && f !in stuck)
    {
      assert n in archives + {n};
      if exists m :: m in archives && m !in stuck && f == ManifestName(m) && f !in stuck {
        var m :| m in archives && m !in stuck && f == ManifestName(m) && f !in stuck;
        assert m in archives + {n};
      }
    }
  }

  /** The artifacts of this node and stack in a directory, other than the one to keep. */
  ghost function CopySet(entries: seq<DirEntry>, node: string, stack: string, keepArchive: string): set<string> {
    set e | e in entries && !e.isDir && OlderCopy(e.name, node, stack, keepArchive) :: e.name
  }

  /** The file is one of these archives, or a sidecar of one that can be removed. */
  ghost predicate GoesWith(f: string, archives: set<string>, stuck: set<string>) {
    f in archives || exists n :: n in archives && f == ManifestName(n) && f !in stuck
  }

  lemma OneMoreGoes(archives: set<string>, n: string, stuck: set<string>)
    ensures forall f :: GoesWith(f, archives + {n}, stuck) <==>
                          GoesWith(f, archives, stuck) || f == n || (f == ManifestName(n) && f !in stuck)
  {
    forall f
      ensures GoesWith(f, archives + {n}, stuck) <==>
              GoesWith(f, archives, stuck) || f == n || (f == ManifestName(n) && f !in stuck)
    {
      assert n in archives + {n};
      if m :| m in archives && f == ManifestName(m) && f !in stuck {
        assert m in archives + {n};
      }
    }
  }

  /** The node's archive directory. */
  class ArchiveDir {
    var files: set<string>

    constructor (files: set<string>)
      ensures this.files == files
    {
      this.files := files;
    }

    /** `os.Remove`, where a missing file is not an error. */
    method Remove(f: string, stuck: set<string>) returns (ok: bool)
      modifies this
      ensures ok <==> f !in old(files) || f !in stuck
      ensures files == if ok then old(files) - {f} else old(files)
    {
      ok := f !in files || f !in stuck;
      if ok {
        files := files - {f};
      }
    }

    /** `removeArtifact`: the archive first, then its sidecar. A sidecar that cannot be
        removed is reported as a failure although the archive is already gone. */
    method RemoveArtifact(name: string, stuck: set<string>) returns (ok: bool)
      modifies this
      ensures ok <==> (name in old(files) ==> name !in stuck) &&
                      (ManifestName(name) in old(files) ==> ManifestName(name) !in stuck)
      ensures name in old(files) && name in stuck ==> files == old(files)
      ensures !(name in old(files) && name in stuck) ==>
                files == old(files) - {name} - (if ManifestName(name) in stuck then {} else {ManifestName(name)})
    {
      ok := Remove(name, stuck);
      if ok {
        assert name != ManifestName(name);
        ok := Remove(ManifestName(name), stuck);
      }
    }

    /** Removes each archive with its sidecar, stopping at the first archive that cannot be
        removed; a sidecar that stays is ignored. */
    method RemoveCopies(copies: seq<string>, stuck: set<string>) returns (removed: nat, ok: bool)
      requires forall n :: n in copies ==> !IsSidecar(n)
      modifies this
      ensures removed <= |copies| && (ok <==> removed == |copies|)
      ensures forall j :: 0 <= j < removed && copies[j] in old(files) ==> copies[j] !in stuck
      ensures !ok ==> copies[removed] in old(files) && copies[removed] in stuck
      ensures forall f :: f in files <==> f in old(files) && !GoesWith(f, Elements(copies[..removed]), stuck)
    {
      removed, ok := 0, true;
      while removed < |copies|
        invariant ok && removed <= |copies|
        invariant forall j :: 0 <= j < removed && copies[j] in old(files) ==> copies[j] !in stuck
        invariant forall f :: f in files <==> f in old(files) && !GoesWith(f, Elements(copies[..removed]), stuck)
        decreases |copies| - removed
      {
        var n := copies[removed];
        TakeOneMore(copies, removed);
        OneMoreGoes(Elements(copies[..removed]), n, stuck);
        ok := Remove(n, stuck);
        if !ok {
          return;
        }
        var _ := Remove(ManifestName(n), stuck);
        removed := removed + 1;
      }
    }

    /** `pruneLocalToNewestOfStack`: removes every other artifact that parses to this node
        and stack, each with its sidecar. Nothing else in the directory is touched, the
        artifact to keep least of all. It fails exactly when one of them cannot be
        removed. */
    method PruneLocalToNewestOfStack(entries: seq<DirEntry>, node: string, stack: string, keepArchive: string,
                                     stuck: set<string>) returns (removed: nat, ok: bool)
      requires !IsSidecar(keepArchive)
      modifies this
      ensures files <= old(files)
      ensures ok <==> forall n :: n in CopySet(entries, node, stack, keepArchive) && n in old(files) ==> n !in stuck
      ensures ok ==> removed == |OlderCopies(entries, node, stack, keepArchive)|
      ensures ok ==> forall f :: f in files <==>
                                   f in old(files) && !GoesWith(f, CopySet(entries, node, stack, keepArchive), stuck)
      ensures forall f :: f in old(files) && f !in files ==>
                            exists n :: OlderCopy(n, node, stack, keepArchive) && DirEntry(n, false) in entries &&
                                        (f == n || f == ManifestName(n))
      ensures keepArchive in old(files) ==> keepArchive in files
    {
      var copies := OlderCopies(entries, node, stack, keepArchive);
      forall n
        ensures n in copies <==> OlderCopy(n, node, stack, keepArchive) && DirEntry(n, false) in entries
      {
        OlderCopiesMeaning(entries, node, stack, keepArchive, n);
      }
      assert Elements(copies) == CopySet(entries, node, stack, keepArchive);
      removed, ok := RemoveCopies(copies, stuck);
      assert ok ==> copies[..removed] == copies;
      forall f | f in old(files) && f !in files
        ensures exists n :: && OlderCopy(n, node, stack, keepArchive) && DirEntry(n, false) in entries
                            && (f == n || f == ManifestName(n))
        ensures f != keepArchive
      {
        var n :| n in Elements(copies[..removed]) && (f == n || f == ManifestName(n));
        assert n in copies;
        SidecarEnds(n);
      }
    }

    /** The delete loop of `PruneArtifacts`. */
    method RemoveAll(del: seq<string>, dryRun: bool, stuck: set<string>)
      returns (deleted: seq<string>, failed: seq<string>)
      requires forall n :: n in del ==> n in files
      modifies this
      ensures Elements(deleted) !! Elements(failed)
      ensures Elements(deleted) + Elements(failed) == Elements(del) && |deleted| + |failed| == |del|
      ensures forall n :: n in failed <==> !dryRun && n in del && Reported(n, stuck, old(files))
      ensures forall f :: f in files <==> f in old(files) && (dryRun || !Gone(f, Elements(del), stuck))
    {
      deleted, failed := [], [];
      for i := 0 to |del|
        invariant |deleted| + |failed| == i
        invariant Elements(deleted) + Elements(failed) == Elements(del[..i])
        invariant forall n :: n in failed <==> !dryRun && n in Elements(del[..i]) && Reported(n, stuck, old(files))
        invariant forall n :: n in deleted ==> dryRun || !Reported(n, stuck, old(files))
        invariant forall f :: f in files <==> f in old(files) && (dryRun || !Gone(f, Elements(del[..i]), stuck))
      {
        var n := del[i];
        TakeOneMore(del, i);
        AppendOne(failed, n);
        AppendOne(deleted, n);
        if dryRun {
          deleted := deleted + [n];
        } else {
          GoneGrows(Elements(del[..i]), n, stuck);
          var ok := RemoveArtifact(n, stuck);
          if ok {
            deleted := deleted + [n];
          } else {
            failed := failed + [n];
          }
        }
      }
      assert del[..|del|] == del;
    }

    /** `PruneArtifacts` over a fresh directory listing. The selection is the one a bucket
        listing the same files would get. */
    method Prune(entries: seq<DirEntry>, policy: Policy, now: int, dryRun: bool, stuck: set<string>)
      returns (res: PruneResult)
      requires PlainDistinct(entries)
      requires forall e :: e in entries && !e.isDir ==> e.name in files
      modifies this
      ensures Elements(res.deleted) !! Elements(res.failed)
      ensures Elements(res.deleted) + Elements(res.failed) == DoomedNames(FileNames(entries), policy, now)
      ensures forall n :: n in res.failed <==>
                            && !dryRun && n in DoomedNames(FileNames(entries), policy, now)
                            && Reported(n, stuck, old(files))
      ensures forall f :: f in files <==>
                            f in old(files) && (dryRun || !Gone(f, DoomedNames(FileNames(entries), policy, now), stuck))
      ensures res.kept + |res.deleted| == |Candidates(FileNames(entries), policy)|
      ensures res.skipped == LegacyCount(FileNames(entries), policy)
    {
      var names := ArchiveNames(entries);
      SameArtifactsWithoutSidecars(entries, policy);
      var del, kept, skipped := Select(names, policy, now);
      assert Elements(del) == DoomedNames(FileNames(entries), policy, now) by {
        FileNamesPlain(entries);
        DistinctListingIsExact(FileNames(entries), policy, now);
      }
      forall n | n in del
        ensures n in files
      {
        assert n in Elements(del);
        PickedIsListed(entries, policy, now, n);
      }
      var deleted, failed := RemoveAll(del, dryRun, stuck);
      res := PruneResult(kept + |failed|, deleted, failed, skipped);
      assert forall n :: n in del <==> n in Elements(del);
    }
  }

  // ---- the legs agree -----------------------------------------------------

  /** From the same names, policy and clock, a dry run on either leg names exactly what a
      real run on either leg deletes or fails to delete, and the keep counts differ by the
      failures. */
  method DryRunPredicts(bucket: Bucket, dir: ArchiveDir, entries: seq<DirEntry>, policy: Policy, now: int,
                        refused: set<string>, stuck: set<string>)
    returns (localDry: PruneResult, dry: PruneResult, local: PruneResult, remote: PruneResult)
    requires PlainDistinct(entries) && forall e :: e in entries && !e.isDir ==> e.name in dir.files
    modifies bucket, dir
    ensures Elements(localDry.deleted) == Elements(dry.deleted) == DoomedNames(FileNames(entries), policy, now)
    ensures Elements(remote.deleted) + Elements(remote.failed) == Elements(dry.deleted)
    ensures Elements(local.deleted) + Elements(local.failed) == Elements(localDry.deleted)
    ensures dry.kept + |dry.deleted| == remote.kept + |remote.deleted| == local.kept + |local.deleted| ==
            localDry.kept + |localDry.deleted|
    ensures dry.skipped == remote.skipped == local.skipped == localDry.skipped
  {
    ghost var doomed := DoomedNames(FileNames(entries), policy, now);
    assert PickedNames(FileNames(entries), policy, now) == doomed by {
      FileNamesPlain(entries);
      DistinctListingIsExact(FileNames(entries), policy, now);
    }
    localDry := dir.Prune(entries, policy, now, true, stuck);
    assert Elements(localDry.failed) == {};
    assert Elements(localDry.deleted) == doomed;
    dry := bucket.Prune(FileNames(entries), policy, now, true, refused);
    remote := bucket.Prune(FileNames(entries), policy, now, false, refused);
    local := dir.Prune(entries, policy, now, false, stuck);
  }
}
