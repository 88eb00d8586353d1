/** The whole backup pipeline as steps: nodes write artifacts, ship them leg by leg, drop
    local copies, and prune their own disk and every destination. Any call may fail, any
    acknowledgement may be lost, and a node may crash between any two steps or while it
    writes, which leaves a torn file under a name that looks like any other artifact's. */
module Pipeline {
  import opened Artifacts
  import opened Retention
  import B = SharedBucket

  /** How much a node keeps on its own disk. */
  datatype Mode = KeepDense | KeepMinimal | KeepNothing

  /** Where a node is within shipping one artifact. */
  datatype Phase =
    | Idle
    | PutManifest(a: Artifact, leg: nat)
    | PutArchive(a: Artifact, leg: nat, vouched: bool)
    | Confirm(a: Artifact, leg: nat)
    | DropOlder(a: Artifact)
    | DropOwn(a: Artifact)

  /** `written` records every artifact the node ever completed, `torn` every name under
      which it left an incomplete one; both kinds of file are on `disk`. */
  datatype Node = Node(mode: Mode, disk: set<Artifact>, sidecars: set<Artifact>, written: set<Artifact>,
                       torn: set<Artifact>, plan: set<Artifact>, phase: Phase)

  /** A destination: archives with their pruners, the sidecars beside them, and which
      archives were sent by a ship that had a sidecar to send. */
  datatype Leg = Leg(store: B.State, manifests: set<Artifact>, vouched: set<Artifact>)

  datatype State = State(nodes: map<string, Node>, legs: seq<Leg>)

  datatype Event =
    | Write(n: string, a: Artifact, sidecar: bool)
    | Tear(n: string, a: Artifact)
    | ManifestPut(n: string, stored: bool, acked: bool)
    | ArchivePut(n: string, stored: bool, acked: bool)
    | Head(n: string, answered: bool)
    | RemoveOlder(n: string, b: Artifact)
    | OlderDone(n: string)
    | RemoveOwn(n: string)
    | Crash(n: string)
    | LocalPlan(n: string, listing: set<Artifact>, decision: B.Decision)
    | LocalDelete(n: string, b: Artifact)
    | Remote(leg: nat, event: B.Event)

  /** The first call of a leg: the sidecar goes first when there is one. */
  function StartLeg(node: Node, a: Artifact, leg: nat): Phase {
    if a in node.sidecars then PutManifest(a, leg) else PutArchive(a, leg, false)
  }

  /** After a leg confirmed: the next leg, or the local clean-up the mode asks for. */
  function NextPhase(node: Node, a: Artifact, leg: nat, legs: nat): Phase {
    if leg + 1 < legs then StartLeg(node, a, leg + 1)
    else if node.mode == KeepDense then Idle
    else DropOlder(a)
  }

  ghost predicate Enabled(st: State, e: Event) {
    match e
    case Write(n, a, _) =>
      && n in st.nodes && st.nodes[n].phase.Idle? && a.node == n
      && (forall b :: b in st.nodes[n].written && SameGroup(a, b) ==> b.at < a.at || b == a)
      && (forall b :: b in st.nodes[n].torn && SameGroup(a, b) ==> b.at < a.at)
    case Tear(n, a) =>
      && n in st.nodes && st.nodes[n].phase.Idle? && a.node == n
      && (forall b :: b in st.nodes[n].written + st.nodes[n].torn && SameGroup(a, b) ==> b.at < a.at)
    case ManifestPut(n, _, _) => n in st.nodes && st.nodes[n].phase.PutManifest? && st.nodes[n].phase.leg < |st.legs|
    case ArchivePut(n, _, _) => n in st.nodes && st.nodes[n].phase.PutArchive? && st.nodes[n].phase.leg < |st.legs|
    case Head(n, _) => n in st.nodes && st.nodes[n].phase.Confirm? && st.nodes[n].phase.leg < |st.legs|
    case RemoveOlder(n, b) =>
      n in st.nodes && st.nodes[n].phase.DropOlder? && SameGroup(b, st.nodes[n].phase.a) && b != st.nodes[n].phase.a
    case OlderDone(n) => n in st.nodes && st.nodes[n].phase.DropOlder?
    case RemoveOwn(n) => n in st.nodes && st.nodes[n].phase.DropOwn?
    case Crash(n) => n in st.nodes
    case LocalPlan(n, listing, _) => n in st.nodes && listing <= st.nodes[n].written + st.nodes[n].torn
    case LocalDelete(n, b) => n in st.nodes && b in st.nodes[n].plan
    case Remote(leg, event) => leg < |st.legs| && !event.Upload? && B.Enabled(st.legs[leg].store, event)
  }

  ghost function WithNode(st: State, n: string, node: Node): State {
    st.(nodes := st.nodes[n := node])
  }

  ghost function WithLeg(st: State, i: nat, leg: Leg): State
    requires i < |st.legs|
  {
    st.(legs := st.legs[i := leg])
  }

  ghost function Step(st: State, e: Event): State
    requires Enabled(st, e)
  {
    match e
    case Write(n, a, sidecar) =>
      var node := st.nodes[n];
      var sidecars := if sidecar then node.sidecars + {a} else node.sidecars;
      var node' := node.(disk := node.disk + {a}, written := node.written + {a}, sidecars := sidecars);
      WithNode(st, n, node'.(phase := if |st.legs| == 0 then Idle else StartLeg(node', a, 0)))
    case Tear(n, a) =>
      var node := st.nodes[n];
      WithNode(st, n, node.(disk := node.disk + {a}, torn := node.torn + {a}))
    case ManifestPut(n, stored, acked) =>
      var node := st.nodes[n];
      var a, i := node.phase.a, node.phase.leg;
      var leg := st.legs[i];
      WithLeg(WithNode(st, n, node.(phase := if acked then PutArchive(a, i, true) else Idle)), i,
              if stored then leg.(manifests := leg.manifests + {a}) else leg)
    case ArchivePut(n, stored, acked) =>
      var node := st.nodes[n];
      var a, i := node.phase.a, node.phase.leg;
      var leg := st.legs[i];
      WithLeg(WithNode(st, n, node.(phase := if acked then Confirm(a, i) else Idle)), i,
              if stored
              then leg.(store := B.Step(leg.store, B.Upload(a)),
                        vouched := if node.phase.vouched then leg.vouched + {a} else leg.vouched)
              else leg)
    case Head(n, answered) =>
      var node := st.nodes[n];
      var a, i := node.phase.a, node.phase.leg;
      var confirmed := answered && a in st.legs[i].store.objects;
      WithNode(st, n, node.(phase := if confirmed then NextPhase(node, a, i, |st.legs|) else Idle))
    case RemoveOlder(n, b) =>
      var node := st.nodes[n];
      WithNode(st, n, node.(disk := node.disk - {b}, sidecars := node.sidecars - {b}))
    case OlderDone(n) =>
      var node := st.nodes[n];
      WithNode(st, n, node.(phase := if node.mode == KeepNothing then DropOwn(node.phase.a) else Idle))
    case RemoveOwn(n) =>
      var node := st.nodes[n];
      var a := node.phase.a;
      WithNode(st, n, node.(disk := node.disk - {a}, sidecars := node.sidecars - {a}, phase := Idle))
    case Crash(n) => WithNode(st, n, st.nodes[n].(phase := Idle, plan := {}))
    case LocalPlan(n, listing, d) =>
      WithNode(st, n, st.nodes[n].(plan := set a | a in listing && Doomed(listing, a, d.policy, d.now)))
    case LocalDelete(n, b) =>
      var node := st.nodes[n];
      WithNode(st, n, node.(disk := node.disk - {b}, sidecars := node.sidecars - {b}))
    case Remote(i, event) => WithLeg(st, i, st.legs[i].(store := B.Step(st.legs[i].store, event)))
  }

  // ---- the invariant ------------------------------------------------------

  /** A newer artifact of the same group exists: this one is not the newest. */
  ghost predicate Superseded(s: set<Artifact>, a: Artifact) {
    exists b :: b in s && SameGroup(a, b) && a.at < b.at
  }

  /** The newest artifact of its group that the node completed. */
  ghost predicate Newest(node: Node, a: Artifact) {
    a in node.written && !Superseded(node.written, a)
  }

  /** The artifact is in every configured destination, and there is at least one. */
  ghost predicate Everywhere(st: State, a: Artifact) {
    |st.legs| > 0 && forall i :: 0 <= i < |st.legs| ==> a in st.legs[i].store.objects
  }

  ghost predicate InFirstLegs(st: State, a: Artifact, k: nat) {
    forall i :: 0 <= i < k && i < |st.legs| ==> a in st.legs[i].store.objects
  }

  ghost predicate PhaseInv(st: State, node: Node) {
    match node.phase
    case Idle => true
    case PutManifest(a, i) => ShippingInv(st, node, a, i)
    case PutArchive(a, i, _) => ShippingInv(st, node, a, i)
    case Confirm(a, i) => ShippingInv(st, node, a, i)
    case DropOlder(a) => ShippedInv(st, node, a)
    case DropOwn(a) => ShippedInv(st, node, a) && node.mode == KeepNothing
  }

  ghost predicate ShippingInv(st: State, node: Node, a: Artifact, leg: nat) {
    Newest(node, a) && leg < |st.legs| && InFirstLegs(st, a, leg)
  }

  ghost predicate ShippedInv(st: State, node: Node, a: Artifact) {
    Newest(node, a) && Everywhere(st, a) && node.mode != KeepDense
  }

  /** What every run keeps of a node. */
  ghost predicate NodeInv(st: State, n: string, node: Node) {
    && (forall a :: a in node.written ==> a.node == n)
    && node.disk <= node.written + node.torn && node.plan <= node.written + node.torn && node.written !! node.torn
    && (forall a, b :: a in node.written && b in node.written && SameGroup(a, b) && a.at == b.at ==> a == b)
    && PhaseInv(st, node)
  }

  ghost predicate LegInv(st: State, leg: Leg) {
    && B.Inv(leg.store)
    && (forall a :: a in leg.store.uploaded ==> a.node in st.nodes && a in st.nodes[a.node].written)
  }

  ghost predicate Inv(st: State) {
    && (forall n :: n in st.nodes ==> NodeInv(st, n, st.nodes[n]))
    && (forall i :: 0 <= i < |st.legs| ==> LegInv(st, st.legs[i]))
  }

  lemma CondemnedIsSuperseded(st: State, i: nat, a: Artifact)
    requires Inv(st) && i < |st.legs| && B.Condemned(st.legs[i].store, a)
    requires a.node in st.nodes
    ensures Superseded(st.nodes[a.node].written, a)
  {
    var store := st.legs[i].store;
    var d :| d in store.taken && Doomed(store.uploaded, a, d.policy, d.now);
    assert Newer(store.uploaded, a) != {};
    var b :| b in Newer(store.uploaded, a);
    assert LegInv(st, st.legs[i]);
  }

  // ---- frames -------------------------------------------------------------

  /** The newest artifacts of a node stay wherever they are. */
  ghost predicate KeepsNewest(st: State, st': State, node: Node) {
    && |st.legs| == |st'.legs|
    && forall i, a :: 0 <= i < |st.legs| && a in st.legs[i].store.objects && Newest(node, a) ==>
                        a in st'.legs[i].store.objects
  }

  lemma NodeFrame(st: State, st': State, n: string, node: Node)
    requires NodeInv(st, n, node) && KeepsNewest(st, st', node)
    ensures NodeInv(st', n, node)
  {
  }

  lemma LegFrame(st: State, st': State, leg: Leg)
    requires LegInv(st, leg) && st.nodes.Keys <= st'.nodes.Keys
    requires forall n :: n in st.nodes ==> st.nodes[n].written <= st'.nodes[n].written
    ensures LegInv(st', leg)
  {
  }

  /** A step of one node that touches no destination. */
  lemma NodeStep(st: State, n: string, node': Node)
    requires Inv(st) && n in st.nodes && st.nodes[n].written <= node'.written
    requires NodeInv(st, n, node')
    ensures Inv(WithNode(st, n, node'))
  {
    var st' := WithNode(st, n, node');
    forall m | m in st'.nodes
      ensures NodeInv(st', m, st'.nodes[m])
    {
      NodeFrame(st, st', m, st'.nodes[m]);
    }
    forall i | 0 <= i < |st'.legs|
      ensures LegInv(st', st'.legs[i])
    {
      LegFrame(st, st', st.legs[i]);
    }
  }

  /** A change of one destination that keeps every newest artifact it holds. */
  lemma LegStep(st: State, i: nat, leg': Leg)
    requires Inv(st) && i < |st.legs| && LegInv(st, leg')
    requires forall a :: a in st.legs[i].store.objects && a !in leg'.store.objects ==>
                           B.Condemned(st.legs[i].store, a)
    ensures Inv(WithLeg(st, i, leg'))
  {
    var st' := WithLeg(st, i, leg');
    forall m | m in st'.nodes
      ensures NodeInv(st', m, st'.nodes[m])
    {
      var node := st.nodes[m];
      forall j, a | 0 <= j < |st.legs| && Newest(node, a) && a in st.legs[j].store.objects
        ensures a in st'.legs[j].store.objects
      {
        if j == i && a !in leg'.store.objects {
          assert NodeInv(st, m, node);
          CondemnedIsSuperseded(st, i, a);
        }
      }
      NodeFrame(st, st', m, node);
    }
    forall j | 0 <= j < |st'.legs|
      ensures LegInv(st', st'.legs[j])
    {
      LegFrame(st, st', st'.legs[j]);
    }
  }

  // ---- every step keeps the invariant -------------------------------------

  lemma WriteKeepsInv(st: State, e: Event)
    requires Inv(st) && Enabled(st, e) && (e.Write? || e.Tear?)
    ensures Inv(Step(st, e))
  {
    var n, node := e.n, st.nodes[e.n];
    var node' := Step(st, e).nodes[n];
    assert NodeInv(st, n, node);
    if e.Write? {
      assert !Superseded(node'.written, e.a);
    }
    NodeStep(st, n, node');
  }

  lemma PutKeepsInv(st: State, e: Event)
    requires Inv(st) && Enabled(st, e) && (e.ManifestPut? || e.ArchivePut?)
    ensures Inv(Step(st, e))
  {
    var n, node := e.n, st.nodes[e.n];
    assert NodeInv(st, n, node);
    var node' := Step(st, e).nodes[n];
    NodeStep(st, n, node');
    var mid := WithNode(st, n, node');
    var i := node.phase.leg;
    var leg' := Step(st, e).legs[i];
    assert LegInv(mid, mid.legs[i]);
    if e.ArchivePut? && e.stored {
      B.StepKeepsInv(mid.legs[i].store, B.Upload(node.phase.a));
    }
    LegStep(mid, i, leg');
    assert Step(st, e) == WithLeg(mid, i, leg');
  }

  lemma HeadKeepsInv(st: State, e: Event)
    requires Inv(st) && Enabled(st, e) && e.Head?
    ensures Inv(Step(st, e))
  {
    var n, node := e.n, st.nodes[e.n];
    assert NodeInv(st, n, node);
    NodeStep(st, n, Step(st, e).nodes[n]);
  }

  /** Steps that touch only the node's own disk and plan. */
  lemma LocalKeepsInv(st: State, e: Event)
    requires Inv(st) && Enabled(st, e)
    requires e.RemoveOlder? || e.OlderDone? || e.RemoveOwn? || e.Crash? || e.LocalPlan? || e.LocalDelete?
    ensures Inv(Step(st, e))
  {
    assert NodeInv(st, e.n, st.nodes[e.n]);
    NodeStep(st, e.n, Step(st, e).nodes[e.n]);
  }

  lemma RemoteKeepsInv(st: State, e: Event)
    requires Inv(st) && Enabled(st, e) && e.Remote?
    ensures Inv(Step(st, e))
  {
    var leg := st.legs[e.leg];
    assert LegInv(st, leg);
    B.StepKeepsInv(leg.store, e.event);
    LegStep(st, e.leg, leg.(store := B.Step(leg.store, e.event)));
  }

  /** Every step keeps the invariant, torn writes and careless plans included. */
  lemma StepKeepsInv(st: State, e: Event)
    requires Inv(st) && Enabled(st, e)
    ensures Inv(Step(st, e))
  {
    match e
    case Write(_, _, _) => WriteKeepsInv(st, e);
    case Tear(_, _) => WriteKeepsInv(st, e);
    case ManifestPut(_, _, _) => PutKeepsInv(st, e);
    case ArchivePut(_, _, _) => PutKeepsInv(st, e);
    case Head(_, _) => HeadKeepsInv(st, e);
    case RemoveOlder(_, _) => LocalKeepsInv(st, e);
    case OlderDone(_) => LocalKeepsInv(st, e);
    case RemoveOwn(_) => LocalKeepsInv(st, e);
    case Crash(_) => LocalKeepsInv(st, e);
    case LocalPlan(_, _, _) => LocalKeepsInv(st, e);
    case LocalDelete(_, _) => LocalKeepsInv(st, e);
    case Remote(_, _) => RemoteKeepsInv(st, e);
  }

  // ---- runs ---------------------------------------------------------------

  /** The initial state: nothing written, nothing shipped, any number of nodes and legs. */
  ghost predicate Init(st: State) {
    && (forall n :: n in st.nodes ==>
                      var node := st.nodes[n];
                      && node.disk == {} && node.sidecars == {} && node.written == {} && node.torn == {}
                      && node.plan == {} && node.phase.Idle?)
    && (forall i :: 0 <= i < |st.legs| ==> st.legs[i] == Leg(B.EMPTY, {}, {}))
  }

  ghost predicate Runs(st: State, events: seq<Event>)
    decreases |events|
  {
    events == [] || (Enabled(st, events[0]) && Runs(Step(st, events[0]), events[1..]))
  }

  ghost function After(st: State, events: seq<Event>): State
    requires Runs(st, events)
    decreases |events|
  {
    if events == [] then st else After(Step(st, events[0]), events[1..])
  }

  lemma {:induction false} RunKeepsInv(st: State, events: seq<Event>)
    requires Inv(st) && Runs(st, events)
    ensures Inv(After(st, events))
    decreases |events|
  {
    if events != [] {
      StepKeepsInv(st, events[0]);
      RunKeepsInv(Step(st, events[0]), events[1..]);
    }
  }

  lemma InitIsInv(st: State)
    requires Init(st)
    ensures Inv(st)
  {
  }

  /** No destination ever receives a torn archive. */
  lemma OnlyCompleteArchivesShip(init: State, events: seq<Event>, i: nat, a: Artifact)
    requires Init(init) && Runs(init, events) && i < |After(init, events).legs|
    requires a in After(init, events).legs[i].store.uploaded
    ensures var nodes := After(init, events).nodes;
            a.node in nodes && a in nodes[a.node].written && a !in nodes[a.node].torn
  {
    InitIsInv(init);
    RunKeepsInv(init, events);
    var st := After(init, events);
    assert LegInv(st, st.legs[i]);
    assert NodeInv(st, a.node, st.nodes[a.node]);
  }

  /** Each destination keeps the newest artifact it ever received for each (node, stack),
      under any mix of policies and clocks. */
  lemma NewestUploadStays(init: State, events: seq<Event>, i: nat, a: Artifact)
    requires Init(init) && Runs(init, events) && i < |After(init, events).legs|
    requires var u := After(init, events).legs[i].store.uploaded; a in u && !Superseded(u, a)
    ensures a in After(init, events).legs[i].store.objects
  {
    InitIsInv(init);
    RunKeepsInv(init, events);
    var store := After(init, events).legs[i].store;
    assert LegInv(After(init, events), After(init, events).legs[i]);
    NewestIsNotCondemned(store, a);
  }

  lemma NewestIsNotCondemned(store: B.State, a: Artifact)
    requires !Superseded(store.uploaded, a)
    ensures !B.Condemned(store, a)
  {
    assert Newer(store.uploaded, a) == {};
  }

  // ---- durability ---------------------------------------------------------

  /** The copies that allow the local one to go. With `local`, a node that keeps local
      copies is asked for its own, whatever the destinations hold. */
  ghost predicate Backed(st: State, node: Node, a: Artifact, local: bool) {
    Everywhere(st, a) && (local ==> node.mode == KeepNothing)
  }

  /** Every newest complete artifact of the node is on its disk or backed elsewhere. */
  ghost predicate NodeDurable(st: State, node: Node, local: bool) {
    forall a :: Newest(node, a) ==> a in node.disk || Backed(st, node, a, local)
  }

  ghost predicate Durable(st: State, local: bool) {
    forall n :: n in st.nodes ==> NodeDurable(st, st.nodes[n], local)
  }

  /** The plan holds nothing whose deletion would hurt. */
  ghost predicate PlanHarmless(st: State, node: Node, local: bool) {
    forall a :: a in node.plan && Newest(node, a) ==> Backed(st, node, a, local)
  }

  ghost predicate Safe(st: State, local: bool) {
    Durable(st, local) && forall n :: n in st.nodes ==> PlanHarmless(st, st.nodes[n], local)
  }

  /** A local plan is careful when the only newest complete artifacts it condemns are
      backed. */
  ghost predicate Careful(st: State, e: Event, local: bool) {
    e.LocalPlan? && e.n in st.nodes ==>
      forall a :: && a in e.listing && Newest(st.nodes[e.n], a)
                  && Doomed(e.listing, a, e.decision.policy, e.decision.now) ==>
                    Backed(st, st.nodes[e.n], a, local)
  }

  /** The names of a listing that outrank `a` without being complete. */
  ghost function TornAbove(node: Node, listing: set<Artifact>, a: Artifact): set<Artifact> {
    set t | t in listing && t in node.torn && SameGroup(a, t) && a.at < t.at
  }

  /** A caller can decide carefulness by counting: a newest complete artifact is condemned
      exactly when it is aged out and at least KeepLast torn names are listed above it. */
  lemma CondemnedByTornNames(node: Node, listing: set<Artifact>, a: Artifact, p: Policy, now: int)
    requires Newest(node, a) && listing <= node.written + node.torn
    ensures Doomed(listing, a, p, now) <==>
            |TornAbove(node, listing, a)| >= p.Floor() && ShouldDelete(a.at, p, now, NewestOfDay(listing, a))
  {
    assert Newer(listing, a) == TornAbove(node, listing, a);
  }

  /** So a plan is careful exactly when each newest complete artifact it lists that is not
      backed has fewer than KeepLast torn names listed above it or is not aged out. */
  lemma CarefulByCounting(st: State, e: Event, local: bool)
    requires Enabled(st, e) && e.LocalPlan?
    ensures var node, p, now := st.nodes[e.n], e.decision.policy, e.decision.now;
            Careful(st, e, local) <==>
            forall a :: a in e.listing && Newest(node, a) && !Backed(st, node, a, local) ==>
                          |TornAbove(node, e.listing, a)| < p.Floor()
                            || !ShouldDelete(a.at, p, now, NewestOfDay(e.listing, a))
  {
    var node, p, now := st.nodes[e.n], e.decision.policy, e.decision.now;
    forall a | a in e.listing && Newest(node, a)
      ensures Doomed(e.listing, a, p, now) <==>
              |TornAbove(node, e.listing, a)| >= p.Floor() && ShouldDelete(a.at, p, now, NewestOfDay(e.listing, a))
    {
      CondemnedByTornNames(node, e.listing, a, p, now);
    }
  }

  /** No step makes a destination lose a newest artifact. */
  lemma StepKeepsNewest(st: State, e: Event, n: string)
    requires Inv(st) && Enabled(st, e) && n in st.nodes
    ensures KeepsNewest(st, Step(st, e), st.nodes[n])
  {
    if e.Remote? {
      var store := st.legs[e.leg].store;
      forall a | a in store.objects && Newest(st.nodes[n], a)
        ensures a in B.Step(store, e.event).objects
      {
        if e.event.Delete? && e.event.a == a {
          assert LegInv(st, st.legs[e.leg]) && NodeInv(st, n, st.nodes[n]);
          CondemnedIsSuperseded(st, e.leg, a);
        }
      }
    }
  }

  lemma BackedStays(st: State, e: Event, n: string, a: Artifact, local: bool)
    requires Inv(st) && Enabled(st, e) && n in st.nodes && Newest(st.nodes[n], a)
    requires Backed(st, st.nodes[n], a, local)
    ensures n in Step(st, e).nodes && Backed(Step(st, e), Step(st, e).nodes[n], a, local)
  {
    StepKeepsNewest(st, e, n);
  }

  /** What one step may do to a node's newest artifacts. */
  lemma NewestBefore(st: State, e: Event, n: string, a: Artifact)
    requires Inv(st) && Enabled(st, e) && n in st.nodes && Newest(Step(st, e).nodes[n], a)
    ensures Newest(st.nodes[n], a) || (e.Write? && e.n == n && e.a == a)
  {
    assert st.nodes[n].written <= Step(st, e).nodes[n].written;
  }

  /** The three ways a file leaves a node's disk. */
  lemma WaysOffDisk(st: State, e: Event, n: string, a: Artifact)
    requires Enabled(st, e) && n in st.nodes && a in st.nodes[n].disk
    ensures n in Step(st, e).nodes
    ensures a !in Step(st, e).nodes[n].disk ==>
              || (e.LocalDelete? && e.n == n && a in st.nodes[n].plan)
              || (e.RemoveOwn? && e.n == n && a == st.nodes[n].phase.a)
              || (e.RemoveOlder? && e.n == n && a == e.b)
  {
  }

  /** The clean-up after a ship removes only what the shipped artifact supersedes. */
  lemma OlderIsSuperseded(st: State, e: Event)
    requires Inv(st) && Enabled(st, e) && e.RemoveOlder? && e.b in st.nodes[e.n].written
    ensures Superseded(st.nodes[e.n].written, e.b)
  {
    assert NodeInv(st, e.n, st.nodes[e.n]);
    var a := st.nodes[e.n].phase.a;
    assert a in st.nodes[e.n].written && SameGroup(e.b, a) && e.b.at < a.at;
  }

  /** A step takes a newest artifact from its node's disk only when it is backed. */
  lemma LeavesDiskBacked(st: State, e: Event, n: string, a: Artifact, local: bool)
    requires Inv(st) && Safe(st, local) && Enabled(st, e) && n in st.nodes && Newest(st.nodes[n], a)
    requires || (e.LocalDelete? && e.n == n && a in st.nodes[n].plan)
             || (e.RemoveOwn? && e.n == n && a == st.nodes[n].phase.a)
             || (e.RemoveOlder? && e.n == n && a == e.b)
    ensures Backed(st, st.nodes[n], a, local)
  {
    assert NodeInv(st, n, st.nodes[n]) && PlanHarmless(st, st.nodes[n], local);
    if e.RemoveOlder? {
      OlderIsSuperseded(st, e);
    }
  }

  lemma StepKeepsDurable(st: State, e: Event, local: bool)
    requires Inv(st) && Safe(st, local) && Enabled(st, e)
    ensures Durable(Step(st, e), local)
  {
    var st' := Step(st, e);
    forall n, a | n in st'.nodes && Newest(st'.nodes[n], a)
      ensures a in st'.nodes[n].disk || Backed(st', st'.nodes[n], a, local)
    {
      NewestBefore(st, e, n, a);
      if Newest(st.nodes[n], a) && a !in st'.nodes[n].disk {
        assert NodeDurable(st, st.nodes[n], local);
        if a in st.nodes[n].disk {
          WaysOffDisk(st, e, n, a);
          LeavesDiskBacked(st, e, n, a, local);
        }
        BackedStays(st, e, n, a, local);
      }
    }
  }

  lemma StepKeepsHarmless(st: State, e: Event, n: string, a: Artifact, local: bool)
    requires Inv(st) && Safe(st, local) && Enabled(st, e) && Careful(st, e, local) && n in st.nodes
    requires a in Step(st, e).nodes[n].plan && Newest(Step(st, e).nodes[n], a)
    ensures Backed(Step(st, e), Step(st, e).nodes[n], a, local)
  {
    assert NodeInv(st, n, st.nodes[n]) && PlanHarmless(st, st.nodes[n], local);
    NewestBefore(st, e, n, a);
    assert Newest(st.nodes[n], a);
    BackedStays(st, e, n, a, local);
  }

  /** A careful step keeps every newest complete artifact safe. */
  lemma StepKeepsSafe(st: State, e: Event, local: bool)
    requires Inv(st) && Safe(st, local) && Enabled(st, e) && Careful(st, e, local)
    ensures Safe(Step(st, e), local)
  {
    var st' := Step(st, e);
    StepKeepsDurable(st, e, local);
    forall n, a | n in st'.nodes && a in st'.nodes[n].plan && Newest(st'.nodes[n], a)
      ensures Backed(st', st'.nodes[n], a, local)
    {
      StepKeepsHarmless(st, e, n, a, local);
    }
  }

  /** Every local plan of a run is careful. */
  ghost predicate CarefulRun(st: State, events: seq<Event>, local: bool)
    requires Runs(st, events)
    decreases |events|
  {
    events == [] || (Careful(st, events[0], local) && CarefulRun(Step(st, events[0]), events[1..], local))
  }

  lemma {:induction false} RunKeepsSafe(st: State, events: seq<Event>, local: bool)
    requires Inv(st) && Safe(st, local) && Runs(st, events) && CarefulRun(st, events, local)
    ensures Inv(After(st, events)) && Safe(After(st, events), local)
    decreases |events|
  {
    if events != [] {
      StepKeepsInv(st, events[0]);
      StepKeepsSafe(st, events[0], local);
      RunKeepsSafe(Step(st, events[0]), events[1..], local);
    }
  }

  /** Durability: in every run whose local plans are careful, with any calls failing, any
      acknowledgements lost, crashes anywhere and any number of torn files, the newest
      complete artifact of each group is on its node's disk or in every destination. If
      the plans are careful about the local copy too, it is on the disk of every node
      whose mode keeps local copies. */
  lemma NewestArtifactIsDurable(init: State, events: seq<Event>, n: string, a: Artifact, local: bool)
    requires Init(init) && Runs(init, events) && CarefulRun(init, events, local)
    requires n in After(init, events).nodes && Newest(After(init, events).nodes[n], a)
    ensures var st := After(init, events);
            && (a in st.nodes[n].disk || Everywhere(st, a))
            && (local && st.nodes[n].mode != KeepNothing ==> a in st.nodes[n].disk)
  {
    InitIsInv(init);
    RunKeepsSafe(init, events, local);
    assert NodeDurable(After(init, events), After(init, events).nodes[n], local);
  }

  /** Without torn files every local plan is careful, so every run without one is. */
  lemma {:induction false} TearlessRunIsCareful(st: State, events: seq<Event>, local: bool)
    requires Inv(st) && Runs(st, events) && (forall n :: n in st.nodes ==> st.nodes[n].torn == {})
    requires forall i :: 0 <= i < |events| ==> !events[i].Tear?
    ensures CarefulRun(st, events, local)
    decreases |events|
  {
    if events != [] {
      var e := events[0];
      if e.LocalPlan? {
        forall a
          ensures TornAbove(st.nodes[e.n], e.listing, a) == {}
        {
        }
        CarefulByCounting(st, e, local);
      }
      StepKeepsInv(st, e);
      assert forall i :: 0 <= i < |events[1..]| ==> events[1..][i] == events[i + 1];
      TearlessRunIsCareful(Step(st, e), events[1..], local);
    }
  }

  // ---- carefulness is exactly what durability needs ------------------------

  /** Whatever is due for deletion at this moment, deleting it leaves the state durable. */
  ghost predicate DeletionsHarmless(st: State, local: bool) {
    forall n, b :: Enabled(st, LocalDelete(n, b)) ==> Durable(Step(st, LocalDelete(n, b)), local)
  }

  ghost predicate AlwaysHarmless(st: State, events: seq<Event>, local: bool)
    requires Runs(st, events)
    decreases |events|
  {
    DeletionsHarmless(st, local) && (events == [] || AlwaysHarmless(Step(st, events[0]), events[1..], local))
  }

  lemma SafeDeletionsHarmless(st: State, local: bool)
    requires Inv(st) && Safe(st, local)
    ensures DeletionsHarmless(st, local)
  {
    forall n, b | Enabled(st, LocalDelete(n, b))
      ensures Durable(Step(st, LocalDelete(n, b)), local)
    {
      StepKeepsDurable(st, LocalDelete(n, b), local);
    }
  }

  /** A careless plan puts the newest complete artifact one deletion from being lost. */
  lemma CarelessPlanHarms(st: State, e: Event, local: bool)
    requires Enabled(st, e) && !Careful(st, e, local)
    ensures !DeletionsHarmless(Step(st, e), local)
  {
    var n, node := e.n, st.nodes[e.n];
    var a :| a in e.listing && Newest(node, a) && Doomed(e.listing, a, e.decision.policy, e.decision.now)
             && !Backed(st, node, a, local);
    var st' := Step(st, e);
    assert Enabled(st', LocalDelete(n, a));
    var st'' := Step(st', LocalDelete(n, a));
    assert Newest(st''.nodes[n], a) && a !in st''.nodes[n].disk && !Backed(st'', st''.nodes[n], a, local);
    assert !NodeDurable(st'', st''.nodes[n], local);
  }

  lemma {:induction false} HarmlessIffCareful(st: State, events: seq<Event>, local: bool)
    requires Inv(st) && Safe(st, local) && Runs(st, events)
    ensures AlwaysHarmless(st, events, local) <==> CarefulRun(st, events, local)
    decreases |events|
  {
    SafeDeletionsHarmless(st, local);
    if events != [] {
      if Careful(st, events[0], local) {
        StepKeepsInv(st, events[0]);
        StepKeepsSafe(st, events[0], local);
        HarmlessIffCareful(Step(st, events[0]), events[1..], local);
      } else {
        CarelessPlanHarms(st, events[0], local);
      }
    }
  }

  /** The exact condition: throughout a run no due deletion can lose a newest complete
      artifact if and only if every local plan of the run was careful. */
  lemma DurableIffCareful(init: State, events: seq<Event>, local: bool)
    requires Init(init) && Runs(init, events)
    ensures AlwaysHarmless(init, events, local) <==> CarefulRun(init, events, local)
  {
    InitIsInv(init);
    HarmlessIffCareful(init, events, local);
  }

  /** The newest complete artifact of a group is on no disk and in no destination. */
  ghost predicate Lost(st: State, n: string, g: Artifact) {
    && n in st.nodes && Newest(st.nodes[n], g)
    && (forall m :: m in st.nodes ==> g !in st.nodes[m].disk)
    && (forall i :: 0 <= i < |st.legs| ==> g !in st.legs[i].store.objects)
  }

  /** Torn writes do lose data: the archive of `g` is written and its upload fails, the
      next write is cut off, and a local prune that keeps one artifact counts the torn
      name `t` as that one. */
  lemma TornWriteLosesNewest(init: State, n: string, g: Artifact, t: Artifact, d: B.Decision)
    requires Init(init) && n in init.nodes && |init.legs| > 0
    requires g.node == n && SameGroup(g, t) && g.at < t.at
    requires d.policy.Floor() == 1 && ShouldDelete(g.at, d.policy, d.now, !SameDay(g, t))
    ensures var events := [Write(n, g, false), ArchivePut(n, false, false), Tear(n, t)] + CarelessPrune(n, g, t, d);
            && Runs(init, events)
            && (var st := After(init, events);
                && n in st.nodes && g in st.nodes[n].written
                && (forall b :: b in st.nodes[n].written && SameGroup(g, b) ==> b.at <= g.at)
                && (forall m :: m in st.nodes ==> g !in st.nodes[m].disk)
                && (forall i :: 0 <= i < |st.legs| ==> g !in st.legs[i].store.objects))
  {
    var e1, e2, e3 := Write(n, g, false), ArchivePut(n, false, false), Tear(n, t);
    var rest := [e3] + CarelessPrune(n, g, t, d);
    var st1, st2 := FailedUpload(init, n, g);
    TearThenPruneLoses(st2, n, g, t, d);
    StepThenRest(st1, e2, rest, st2);
    StepThenRest(init, e1, [e2] + rest, st1);
    assert [e1, e2, e3] + CarelessPrune(n, g, t, d) == [e1] + ([e2] + rest);
  }

  /** The only copy of `g` is on its node. */
  ghost predicate OnDiskOnly(st: State, n: string, g: Artifact) {
    && n in st.nodes && st.nodes[n].written == {g}
    && (forall m :: m in st.nodes && m != n ==> g !in st.nodes[m].disk)
    && (forall i :: 0 <= i < |st.legs| ==> g !in st.legs[i].store.objects)
  }

  lemma FailedUpload(init: State, n: string, g: Artifact) returns (st1: State, st2: State)
    requires Init(init) && n in init.nodes && |init.legs| > 0 && g.node == n
    ensures var e1, e2 := Write(n, g, false), ArchivePut(n, false, false);
            && Enabled(init, e1) && st1 == Step(init, e1) && Enabled(st1, e2) && st2 == Step(st1, e2)
    ensures OnDiskOnly(st2, n, g) && st2.nodes[n].torn == {} && st2.nodes[n].phase.Idle?
  {
    st1 := Step(init, Write(n, g, false));
    st2 := Step(st1, ArchivePut(n, false, false));
  }

  lemma TearThenPruneLoses(st: State, n: string, g: Artifact, t: Artifact, d: B.Decision)
    requires OnDiskOnly(st, n, g) && st.nodes[n].torn == {} && st.nodes[n].phase.Idle?
    requires g.node == n && SameGroup(g, t) && g.at < t.at
    requires d.policy.Floor() == 1 && ShouldDelete(g.at, d.policy, d.now, !SameDay(g, t))
    ensures var events := [Tear(n, t)] + CarelessPrune(n, g, t, d); Runs(st, events) && Lost(After(st, events), n, g)
  {
    var st' := Step(st, Tear(n, t));
    CarelessPruneLoses(st', n, g, t, d);
    StepThenRest(st, Tear(n, t), CarelessPrune(n, g, t, d), st');
  }

  ghost function CarelessPrune(n: string, g: Artifact, t: Artifact, d: B.Decision): seq<Event> {
    [LocalPlan(n, {g, t}, d)] + ([LocalDelete(n, g)] + [])
  }

  lemma CarelessPruneLoses(st: State, n: string, g: Artifact, t: Artifact, d: B.Decision)
    requires OnDiskOnly(st, n, g) && st.nodes[n].torn == {t}
    requires SameGroup(g, t) && g.at < t.at
    requires d.policy.Floor() == 1 && ShouldDelete(g.at, d.policy, d.now, !SameDay(g, t))
    ensures var events := CarelessPrune(n, g, t, d); Runs(st, events) && Lost(After(st, events), n, g)
  {
    TornNameCondemns(g, t, d.policy, d.now);
    var e1, e2 := LocalPlan(n, {g, t}, d), LocalDelete(n, g);
    var st1 := Step(st, e1);
    var st2 := Step(st1, e2);
    StepThenRest(st1, e2, [], st2);
    StepThenRest(st, e1, [e2] + [], st1);
  }

  lemma StepThenRest(st: State, e: Event, rest: seq<Event>, st': State)
    requires Enabled(st, e) && st' == Step(st, e) && Runs(st', rest)
    ensures Runs(st, [e] + rest) && After(st, [e] + rest) == After(st', rest)
  {
    assert ([e] + rest)[1..] == rest;
  }

  lemma TornNameCondemns(g: Artifact, t: Artifact, p: Policy, now: int)
    requires SameGroup(g, t) && g.at < t.at && p.Floor() == 1 && ShouldDelete(g.at, p, now, !SameDay(g, t))
    ensures Doomed({g, t}, g, p, now)
  {
    assert Newer({g, t}, g) == {t};
    assert NewestOfDay({g, t}, g) <==> !SameDay(g, t);
  }

  // ---- a backup that goes well --------------------------------------------

  /** A call that fails, a confirmation that does not come and a crash all end the ship:
      the node is idle, its disk is as it was, and no later leg is contacted. */
  lemma FailureEndsShip(st: State, e: Event)
    requires Enabled(st, e)
    requires || ((e.ManifestPut? || e.ArchivePut?) && !e.acked)
             || (e.Head? && !(e.answered && st.nodes[e.n].phase.a in st.legs[st.nodes[e.n].phase.leg].store.objects))
             || e.Crash?
    ensures var node, node' := st.nodes[e.n], Step(st, e).nodes[e.n];
            && node'.phase == Idle && node'.disk == node.disk && node'.written == node.written
            && node'.sidecars == node.sidecars && node'.plan == if e.Crash? then {} else node.plan
    ensures |Step(st, e).legs| == |st.legs|
    ensures forall i :: 0 <= i < |st.legs| && (e.Crash? || e.Head? || i != st.nodes[e.n].phase.leg) ==>
                          Step(st, e).legs[i] == st.legs[i]
  {
  }

  /** The calls of one leg, all answered. */
  ghost function LegEvents(n: string, sidecar: bool): seq<Event> {
    (if sidecar then [ManifestPut(n, true, true)] else []) + ([ArchivePut(n, true, true)] + ([Head(n, true)] + []))
  }

  /** The calls of `k` legs in a row. */
  ghost function LegsEvents(n: string, sidecar: bool, k: nat): seq<Event> {
    if k == 0 then [] else LegEvents(n, sidecar) + LegsEvents(n, sidecar, k - 1)
  }

  lemma {:induction false} RunsThen(st: State, events: seq<Event>, more: seq<Event>)
    requires Runs(st, events) && Runs(After(st, events), more)
    ensures Runs(st, events + more) && After(st, events + more) == After(After(st, events), more)
    decreases |events|
  {
    if events == [] {
      assert events + more == more;
    } else {
      RunsThen(Step(st, events[0]), events[1..], more);
      assert (events + more)[1..] == events[1..] + more;
    }
  }

  /** The node ships `a`, and is about to start leg `i`. */
  ghost predicate AtLeg(st: State, n: string, a: Artifact, i: nat, sidecar: bool) {
    && n in st.nodes && i < |st.legs| && (a in st.nodes[n].sidecars <==> sidecar)
    && st.nodes[n].phase == StartLeg(st.nodes[n], a, i)
  }

  /** Only leg `i` changed, and it gained the archive, with its sidecar if there is one. */
  ghost predicate Delivered(leg: Leg, leg': Leg, a: Artifact, sidecar: bool) {
    && leg'.store.objects == leg.store.objects + {a}
    && leg'.manifests == leg.manifests + if sidecar then {a} else {}
  }

  lemma SidecarLeg(st: State, n: string, a: Artifact, i: nat) returns (mid: State)
    requires AtLeg(st, n, a, i, true)
    ensures var e := ManifestPut(n, true, true); Enabled(st, e) && mid == Step(st, e)
    ensures mid.nodes == st.nodes[n := st.nodes[n].(phase := PutArchive(a, i, true))]
    ensures mid.legs == st.legs[i := st.legs[i].(manifests := st.legs[i].manifests + {a})]
  {
    mid := Step(st, ManifestPut(n, true, true));
  }

  lemma ArchiveLeg(st: State, n: string, a: Artifact, i: nat, vouched: bool)
    requires n in st.nodes && i < |st.legs| && st.nodes[n].phase == PutArchive(a, i, vouched)
    ensures var events := [ArchivePut(n, true, true)] + ([Head(n, true)] + []);
            && Runs(st, events)
            && (var st' := After(st, events);
                && st'.nodes == st.nodes[n := st.nodes[n].(phase := NextPhase(st.nodes[n], a, i, |st.legs|))]
                && |st'.legs| == |st.legs| && (forall j :: 0 <= j < |st.legs| && j != i ==> st'.legs[j] == st.legs[j])
                && Delivered(st.legs[i], st'.legs[i], a, false))
  {
    var e1, e2 := ArchivePut(n, true, true), Head(n, true);
    var st1 := Step(st, e1);
    assert a in st1.legs[i].store.objects;
    assert st1.nodes == st.nodes[n := st.nodes[n].(phase := Confirm(a, i))];
    var st2 := Step(st1, e2);
    assert NextPhase(st1.nodes[n], a, i, |st.legs|) == NextPhase(st.nodes[n], a, i, |st.legs|);
    assert st2.nodes == st.nodes[n := st.nodes[n].(phase := NextPhase(st.nodes[n], a, i, |st.legs|))];
    StepThenRest(st1, e2, [], st2);
    StepThenRest(st, e1, [e2] + [], st1);
  }

  lemma LegDelivers(st: State, n: string, a: Artifact, i: nat, sidecar: bool)
    requires AtLeg(st, n, a, i, sidecar)
    ensures Runs(st, LegEvents(n, sidecar))
    ensures var st' := After(st, LegEvents(n, sidecar));
            && st'.nodes == st.nodes[n := st.nodes[n].(phase := NextPhase(st.nodes[n], a, i, |st.legs|))]
            && |st'.legs| == |st.legs| && (forall j :: 0 <= j < |st.legs| && j != i ==> st'.legs[j] == st.legs[j])
            && Delivered(st.legs[i], st'.legs[i], a, sidecar)
  {
    if sidecar {
      var mid := SidecarLeg(st, n, a, i);
      ArchiveLeg(mid, n, a, i, true);
      var rest := [ArchivePut(n, true, true)] + ([Head(n, true)] + []);
      StepThenRest(st, ManifestPut(n, true, true), rest, mid);
      assert NextPhase(mid.nodes[n], a, i, |st.legs|) == NextPhase(st.nodes[n], a, i, |st.legs|);
      assert LegEvents(n, true) == [ManifestPut(n, true, true)] + rest;
    } else {
      ArchiveLeg(st, n, a, i, false);
      assert LegEvents(n, false) == [ArchivePut(n, true, true)] + ([Head(n, true)] + []);
    }
  }

  /** Every leg from `i` on gained the archive with its sidecar; the node goes on to the
      clean-up its mode asks for. */
  ghost predicate Shipped(st: State, st': State, n: string, a: Artifact, i: nat, sidecar: bool) {
    && n in st.nodes
    && st'.nodes == st.nodes[n := st.nodes[n].(phase := if st.nodes[n].mode == KeepDense then Idle else DropOlder(a))]
    && |st'.legs| == |st.legs|
    && (forall j :: 0 <= j < i && j < |st.legs| ==> st'.legs[j] == st.legs[j])
    && (forall j :: i <= j < |st.legs| ==> Delivered(st.legs[j], st'.legs[j], a, sidecar))
  }

  lemma {:induction false} LegsDeliver(st: State, n: string, a: Artifact, i: nat, sidecar: bool)
    requires AtLeg(st, n, a, i, sidecar)
    ensures Runs(st, LegsEvents(n, sidecar, |st.legs| - i))
    ensures Shipped(st, After(st, LegsEvents(n, sidecar, |st.legs| - i)), n, a, i, sidecar)
    decreases |st.legs| - i
  {
    var k := |st.legs| - i;
    LegDelivers(st, n, a, i, sidecar);
    var one, rest := LegEvents(n, sidecar), LegsEvents(n, sidecar, k - 1);
    var st1 := After(st, one);
    if i + 1 < |st.legs| {
      assert AtLeg(st1, n, a, i + 1, sidecar);
      LegsDeliver(st1, n, a, i + 1, sidecar);
      ShippedOneMore(st, st1, After(st1, rest), n, a, i, sidecar);
    } else {
      assert rest == [];
    }
    RunsThen(st, one, rest);
  }

  lemma ShippedOneMore(st: State, st1: State, st': State, n: string, a: Artifact, i: nat, sidecar: bool)
    requires n in st.nodes && i + 1 < |st.legs| && |st1.legs| == |st.legs|
    requires st1.nodes == st.nodes[n := st.nodes[n].(phase := NextPhase(st.nodes[n], a, i, |st.legs|))]
    requires forall j :: 0 <= j < |st.legs| && j != i ==> st1.legs[j] == st.legs[j]
    requires Delivered(st.legs[i], st1.legs[i], a, sidecar) && Shipped(st1, st', n, a, i + 1, sidecar)
    ensures Shipped(st, st', n, a, i, sidecar)
  {
  }

  /** A backup all of whose calls go through: the artifact is on disk and in every
      destination, with its sidecar if it has one, and the node goes on to the clean-up its
      mode asks for. Nothing else changes. */
  lemma BackupGoesWell(st: State, n: string, a: Artifact, sidecar: bool)
    requires n in st.nodes && st.nodes[n].phase == Idle && a.node == n && |st.legs| > 0
    requires forall b :: b in st.nodes[n].written + st.nodes[n].torn && SameGroup(a, b) ==> b.at < a.at
    requires a in st.nodes[n].sidecars ==> sidecar
    ensures var events := [Write(n, a, sidecar)] + LegsEvents(n, sidecar, |st.legs|);
            && Runs(st, events)
            && (var st' := After(st, events);
                && st'.nodes.Keys == st.nodes.Keys && |st'.legs| == |st.legs|
                && a in st'.nodes[n].disk && Everywhere(st', a)
                && (forall j :: 0 <= j < |st.legs| ==> Delivered(st.legs[j], st'.legs[j], a, sidecar))
                && (forall m :: m in st.nodes && m != n ==> st'.nodes[m] == st.nodes[m])
                && st'.nodes[n].disk == st.nodes[n].disk + {a} && st'.nodes[n].mode == st.nodes[n].mode
                && st'.nodes[n].phase == if st.nodes[n].mode == KeepDense then Idle else DropOlder(a))
  {
    var e, rest := Write(n, a, sidecar), LegsEvents(n, sidecar, |st.legs|);
    var st1 := Step(st, e);
    assert AtLeg(st1, n, a, 0, sidecar);
    LegsDeliver(st1, n, a, 0, sidecar);
    StepThenRest(st, e, rest, st1);
  }

  lemma {:induction false} OlderGo(st: State, n: string, a: Artifact, older: seq<Artifact>)
    requires n in st.nodes && st.nodes[n].phase == DropOlder(a) && forall b :: b in older ==> SameGroup(b, a) && b != a
    ensures var events := seq(|older|, i requires 0 <= i < |older| => RemoveOlder(n, older[i]));
            && Runs(st, events)
            && (var st' := After(st, events);
                && n in st'.nodes && st'.legs == st.legs && st'.nodes[n].phase == DropOlder(a)
                && st'.nodes[n].mode == st.nodes[n].mode
                && st'.nodes[n].disk == st.nodes[n].disk - set b | b in older)
    decreases |older|
  {
    var events := seq(|older|, i requires 0 <= i < |older| => RemoveOlder(n, older[i]));
    if older == [] {
      assert events == [];
      assert st.nodes[n].disk - (set b | b in older) == st.nodes[n].disk;
    } else {
      var rest := older[1..];
      assert older[0] in older && forall b :: b in rest ==> b in older;
      var st1 := Step(st, RemoveOlder(n, older[0]));
      OlderGo(st1, n, a, rest);
      assert events[1..] == seq(|rest|, i requires 0 <= i < |rest| => RemoveOlder(n, rest[i]));
      assert st1.nodes[n].disk - (set b | b in rest) == st.nodes[n].disk - set b | b in older;
    }
  }

  /** The rest of a clean-up: done with the older copies, and with its own if none is kept. */
  ghost function CleanUpEnd(n: string, mode: Mode): seq<Event> {
    [OlderDone(n)] + if mode == KeepNothing then [RemoveOwn(n)] + [] else []
  }

  lemma CleanUpEnds(st: State, n: string, a: Artifact)
    requires n in st.nodes && st.nodes[n].phase == DropOlder(a)
    ensures var events := CleanUpEnd(n, st.nodes[n].mode);
            && Runs(st, events)
            && (var st' := After(st, events);
                && n in st'.nodes && st'.legs == st.legs && st'.nodes[n].phase == Idle
                && st'.nodes[n].disk == st.nodes[n].disk - if st.nodes[n].mode == KeepNothing then {a} else {})
  {
    var e1, e2 := OlderDone(n), RemoveOwn(n);
    var st1 := Step(st, e1);
    if st.nodes[n].mode == KeepNothing {
      var st2 := Step(st1, e2);
      StepThenRest(st1, e2, [], st2);
      StepThenRest(st, e1, [e2] + [], st1);
    } else {
      StepThenRest(st, e1, [], st1);
    }
  }

  /** The clean-up after a confirmed last leg, when nothing fails: of the artifact's group
      only the artifact itself is left on disk, and not even that if the mode keeps
      nothing. Other groups and the destinations are untouched. */
  lemma CleanUpGoesWell(st: State, n: string, a: Artifact, older: seq<Artifact>)
    requires n in st.nodes && st.nodes[n].phase == DropOlder(a)
    requires forall b :: b in older <==> b in st.nodes[n].disk && SameGroup(b, a) && b != a
    ensures var events := seq(|older|, i requires 0 <= i < |older| => RemoveOlder(n, older[i]))
                          + CleanUpEnd(n, st.nodes[n].mode);
            && Runs(st, events)
            && (var st' := After(st, events);
                && n in st'.nodes && st'.legs == st.legs && st'.nodes[n].phase == Idle
                && (forall b :: b in st'.nodes[n].disk <==>
                                  && b in st.nodes[n].disk
                                  && (SameGroup(b, a) ==> b == a && st.nodes[n].mode != KeepNothing)))
  {
    var removals := seq(|older|, i requires 0 <= i < |older| => RemoveOlder(n, older[i]));
    OlderGo(st, n, a, older);
    var mid := After(st, removals);
    CleanUpEnds(mid, n, a);
    RunsThen(st, removals, CleanUpEnd(n, st.nodes[n].mode));
  }

  // ---- provenance ---------------------------------------------------------

  /** The destinations keep every sidecar they acknowledge. */
  ghost predicate SidecarsKept(events: seq<Event>) {
    forall i :: 0 <= i < |events| && events[i].ManifestPut? && events[i].acked ==> events[i].stored
  }

  ghost predicate Provenance(st: State) {
    && (forall i :: 0 <= i < |st.legs| ==> st.legs[i].vouched <= st.legs[i].manifests)
    && (forall n :: n in st.nodes ==>
                      var ph := st.nodes[n].phase;
                      ph.PutArchive? && ph.vouched && ph.leg < |st.legs| ==> ph.a in st.legs[ph.leg].manifests)
  }

  /** An acknowledged sidecar is in its destination: stored now, or there before. */
  ghost predicate Arrives(st: State, e: Event)
    requires Enabled(st, e)
  {
    e.ManifestPut? && e.acked ==>
      var ph := st.nodes[e.n].phase; e.stored || ph.a in st.legs[ph.leg].manifests
  }

  /** A step keeps provenance exactly when the sidecar it saw acknowledged has arrived. */
  lemma StepProvenance(st: State, e: Event)
    requires Provenance(st) && Enabled(st, e)
    ensures Provenance(Step(st, e)) <==> Arrives(st, e)
  {
    if e.ManifestPut? {
      ManifestPutProvenance(st, e);
    }
  }

  lemma ManifestPutProvenance(st: State, e: Event)
    requires Provenance(st) && Enabled(st, e) && e.ManifestPut?
    ensures Provenance(Step(st, e)) <==> Arrives(st, e)
  {
    var ph, st' := st.nodes[e.n].phase, Step(st, e);
    assert st'.legs[ph.leg].manifests == st.legs[ph.leg].manifests + if e.stored then {ph.a} else {};
    if e.acked {
      assert st'.nodes[e.n].phase == PutArchive(ph.a, ph.leg, true);
    }
  }

  ghost predicate AlwaysProvenance(st: State, events: seq<Event>)
    requires Runs(st, events)
    decreases |events|
  {
    Provenance(st) && (events == [] || AlwaysProvenance(Step(st, events[0]), events[1..]))
  }

  ghost predicate SidecarsArrive(st: State, events: seq<Event>)
    requires Runs(st, events)
    decreases |events|
  {
    events == [] || (Arrives(st, events[0]) && SidecarsArrive(Step(st, events[0]), events[1..]))
  }

  lemma {:induction false} RunProvenance(st: State, events: seq<Event>)
    requires Provenance(st) && Runs(st, events)
    ensures AlwaysProvenance(st, events) <==> SidecarsArrive(st, events)
    decreases |events|
  {
    if events != [] {
      StepProvenance(st, events[0]);
      if Arrives(st, events[0]) {
        RunProvenance(Step(st, events[0]), events[1..]);
      }
    }
  }

  /** Provenance, exactly: at every state of a run each archive shipped by a node holding
      its sidecar is in a destination, or on its way, only together with that sidecar, if
      and only if every acknowledged sidecar was stored or was there already. */
  lemma ProvenanceIffSidecarsArrive(init: State, events: seq<Event>)
    requires Init(init) && Runs(init, events)
    ensures AlwaysProvenance(init, events) <==> SidecarsArrive(init, events)
  {
    RunProvenance(init, events);
  }

  lemma {:induction false} LastProvenance(st: State, events: seq<Event>)
    requires Runs(st, events) && AlwaysProvenance(st, events)
    ensures Provenance(After(st, events))
    decreases |events|
  {
    if events != [] {
      LastProvenance(Step(st, events[0]), events[1..]);
    }
  }

  lemma {:induction false} KeptSidecarsArrive(st: State, events: seq<Event>)
    requires Runs(st, events) && SidecarsKept(events)
    ensures SidecarsArrive(st, events)
    decreases |events|
  {
    if events != [] {
      assert events[0].ManifestPut? && events[0].acked ==> events[0].stored;
      assert forall i :: 0 <= i < |events[1..]| ==> events[1..][i] == events[i + 1];
      KeptSidecarsArrive(Step(st, events[0]), events[1..]);
    }
  }

  /** Provenance order: destinations that keep every sidecar they acknowledge hold, at
      every crash point of every run, no archive without the sidecar it was shipped with. */
  lemma ArchiveImpliesSidecar(st: State, events: seq<Event>)
    requires Provenance(st) && Runs(st, events) && SidecarsKept(events)
    ensures AlwaysProvenance(st, events) && Provenance(After(st, events))
    ensures var legs := After(st, events).legs;
            forall i, a :: 0 <= i < |legs| && a in legs[i].vouched ==> a in legs[i].manifests
  {
    KeptSidecarsArrive(st, events);
    RunProvenance(st, events);
    LastProvenance(st, events);
  }

  /** A sidecar that did not arrive is one upload away from an archive without it: only the
      archive is confirmed. */
  lemma MissingSidecarHarms(st: State, e: Event, acked: bool)
    requires Enabled(st, e) && !Arrives(st, e)
    ensures var put := ArchivePut(e.n, true, acked);
            && Enabled(Step(st, e), put)
            && (var ph, leg := st.nodes[e.n].phase, Step(Step(st, e), put).legs[st.nodes[e.n].phase.leg];
                ph.a in leg.store.objects && ph.a in leg.vouched && ph.a !in leg.manifests)
  {
    var ph, st1 := st.nodes[e.n].phase, Step(st, e);
    assert st1.nodes[e.n].phase == PutArchive(ph.a, ph.leg, true);
    assert st1.legs[ph.leg].manifests == st.legs[ph.leg].manifests;
  }

  /** Such a run from the initial state: the sidecar is acknowledged and lost, and the
      archive follows. */
  lemma LostSidecarBreaksProvenance(init: State, n: string, a: Artifact)
    requires Init(init) && n in init.nodes && |init.legs| > 0 && a.node == n
    ensures var events := [Write(n, a, true), ManifestPut(n, false, true), ArchivePut(n, true, true)];
            && Runs(init, events) && |After(init, events).legs| == |init.legs|
            && (var leg := After(init, events).legs[0];
                a in leg.store.objects && a in leg.vouched && a !in leg.manifests)
  {
    var e1, e2, e3 := Write(n, a, true), ManifestPut(n, false, true), ArchivePut(n, true, true);
    var st1 := Step(init, e1);
    var st2 := Step(st1, e2);
    var st3 := Step(st2, e3);
    StepThenRest(st2, e3, [], st3);
    StepThenRest(st1, e2, [e3] + [], st2);
    StepThenRest(init, e1, [e2] + ([e3] + []), st1);
    assert [e1, e2, e3] == [e1] + ([e2] + ([e3] + []));
  }
}
