/** One object store that many nodes upload to and prune concurrently. A pruner lists,
    decides, and deletes later, one object at a time, while others go on uploading and
    deleting: its plan may be arbitrarily stale. */
module SharedBucket {
  import opened Artifacts
  import opened Retention

  /** A retention decision that some pruner took: a policy and a clock reading. */
  datatype Decision = Decision(policy: Policy, now: int)

  /** `uploaded` and `taken` record history; the store itself is `objects`. */
  datatype State = State(objects: set<Artifact>, uploaded: set<Artifact>, plans: map<string, set<Artifact>>,
                         taken: set<Decision>)

  datatype Event =
    | Upload(a: Artifact)
    | Plan(pruner: string, listing: set<Artifact>, decision: Decision)
    | Delete(pruner: string, a: Artifact)

  const EMPTY := State({}, {}, map[], {})

  /** A listing names only objects that were uploaded; it may miss any of them. A pruner
      deletes only what its own plan selected. */
  ghost predicate Enabled(st: State, e: Event) {
    match e
    case Upload(_) => true
    case Plan(_, listing, _) => listing <= st.uploaded
    case Delete(pruner, a) => pruner in st.plans && a in st.plans[pruner]
  }

  ghost function Step(st: State, e: Event): State {
    match e
    case Upload(a) => st.(objects := st.objects + {a}, uploaded := st.uploaded + {a})
    case Plan(pruner, listing, d) =>
      st.(plans := st.plans[pruner := set a | a in listing && Doomed(listing, a, d.policy, d.now)],
          taken := st.taken + {d})
    case Delete(_, a) => st.(objects := st.objects - {a})
  }

  ghost predicate Runs(st: State, events: seq<Event>)
    decreases |events|
  {
    events == [] || (Enabled(st, events[0]) && Runs(Step(st, events[0]), events[1..]))
  }

  ghost function After(st: State, events: seq<Event>): State
    decreases |events|
  {
    if events == [] then st else After(Step(st, events[0]), events[1..])
  }

  /** Some decision taken so far condemns the artifact in the full upload history. */
  ghost predicate Condemned(st: State, a: Artifact) {
    exists d :: d in st.taken && Doomed(st.uploaded, a, d.policy, d.now)
  }

  ghost predicate Inv(st: State) {
    && st.objects <= st.uploaded
    && (forall a :: a in st.uploaded - st.objects ==> Condemned(st, a))
    && (forall p, a :: p in st.plans && a in st.plans[p] ==> Condemned(st, a))
  }

  lemma CondemnedStays(st: State, st': State, a: Artifact)
    requires st.uploaded <= st'.uploaded && st.taken <= st'.taken && Condemned(st, a)
    ensures Condemned(st', a)
  {
    var d :| d in st.taken && Doomed(st.uploaded, a, d.policy, d.now);
    DoomedIsFinal(st.uploaded, st'.uploaded, a, d.policy, d.now, d.now);
  }

  lemma PlannedIsCondemned(st: State, listing: set<Artifact>, d: Decision, a: Artifact)
    requires listing <= st.uploaded && d in st.taken && Doomed(listing, a, d.policy, d.now)
    ensures Condemned(st, a)
  {
    DoomedIsFinal(listing, st.uploaded, a, d.policy, d.now, d.now);
  }

  lemma StepKeepsInv(st: State, e: Event)
    requires Inv(st) && Enabled(st, e)
    ensures Inv(Step(st, e))
  {
    var st' := Step(st, e);
    forall a | Condemned(st, a)
      ensures Condemned(st', a)
    {
      CondemnedStays(st, st', a);
    }
    if e.Plan? {
      forall a | a in st'.plans[e.pruner]
        ensures Condemned(st', a)
      {
        PlannedIsCondemned(st', e.listing, e.decision, a);
      }
    }
  }

  lemma {:induction false} RunKeepsInv(st: State, events: seq<Event>)
    requires Inv(st) && Runs(st, events)
    ensures Inv(After(st, events))
    decreases |events|
  {
    if events != [] {
      StepKeepsInv(st, events[0]);
      RunKeepsInv(Step(st, events[0]), events[1..]);
    }
  }

  /** The floor holds under every interleaving: if every pruner keeps at least `k`, the
      `k` newest artifacts ever uploaded for each (node, stack) are all still there,
      whatever the listings missed and whatever the clocks said. */
  lemma FloorUnderInterleaving(events: seq<Event>, k: nat, a: Artifact)
    requires Runs(EMPTY, events)
    requires var st := After(EMPTY, events);
             && (forall d :: d in st.taken ==> d.policy.Floor() >= k)
             && a in st.uploaded && |Newer(st.uploaded, a)| < k
    ensures a in After(EMPTY, events).objects
  {
    RunKeepsInv(EMPTY, events);
    var st := After(EMPTY, events);
    assert a !in st.objects ==> Condemned(st, a);
  }

  /** With one policy, no interleaving loses anything that a single prune of everything
      ever uploaded, at the latest clock, would keep; and a prune of what is left at that
      clock yields exactly that prune. */
  lemma ConcurrentPruneConverges(events: seq<Event>, p: Policy, t: int)
    requires Runs(EMPTY, events)
    requires forall d :: d in After(EMPTY, events).taken ==> d.policy == p && d.now <= t
    ensures var st := After(EMPTY, events);
            && Survivors(st.uploaded, p, t) <= st.objects
            && Survivors(st.objects, p, t) == Survivors(st.uploaded, p, t)
  {
    RunKeepsInv(EMPTY, events);
    var st := After(EMPTY, events);
    forall x | x in st.uploaded - st.objects
      ensures Doomed(st.uploaded, x, p, t)
    {
      var d :| d in st.taken && Doomed(st.uploaded, x, d.policy, d.now);
      DoomedIsFinal(st.uploaded, st.uploaded, x, p, d.now, t);
    }
    Confluence(st.uploaded, st.objects, p, t);
  }

  lemma {:induction false} DeletesRemove(st: State, pruner: string, planned: seq<Artifact>)
    requires pruner in st.plans && forall a :: a in planned ==> a in st.plans[pruner]
    ensures var events := seq(|planned|, i requires 0 <= i < |planned| => Delete(pruner, planned[i]));
            && Runs(st, events)
            && After(st, events) == st.(objects := st.objects - set a | a in planned)
    decreases |planned|
  {
    var events := seq(|planned|, i requires 0 <= i < |planned| => Delete(pruner, planned[i]));
    if planned == [] {
      assert events == [];
      assert st.objects - (set a | a in planned) == st.objects;
    } else {
      var st', rest := Step(st, events[0]), planned[1..];
      DeletesRemove(st', pruner, rest);
      assert events[1..] == seq(|rest|, i requires 0 <= i < |rest| => Delete(pruner, rest[i]));
      assert planned[0] in planned;
      assert st'.objects - (set a | a in rest) == st.objects - set a | a in planned;
    }
  }

  /** A pruner that lists the whole bucket and deletes everything it planned, in any order,
      leaves exactly what the rules keep. */
  lemma FullPruneLeavesSurvivors(st: State, pruner: string, d: Decision, planned: seq<Artifact>)
    requires Inv(st)
    requires forall a :: a in planned <==> a in st.objects && Doomed(st.objects, a, d.policy, d.now)
    ensures var deletes := seq(|planned|, i requires 0 <= i < |planned| => Delete(pruner, planned[i]));
            var events := [Plan(pruner, st.objects, d)] + deletes;
            Runs(st, events) && After(st, events).objects == Survivors(st.objects, d.policy, d.now)
  {
    var deletes := seq(|planned|, i requires 0 <= i < |planned| => Delete(pruner, planned[i]));
    var events := [Plan(pruner, st.objects, d)] + deletes;
    var st' := Step(st, events[0]);
    DeletesRemove(st', pruner, planned);
    assert events[1..] == deletes;
    assert st.objects - (set a | a in planned) == Survivors(st.objects, d.policy, d.now);
  }
}
