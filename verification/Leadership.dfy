/** Watching swarm leadership, and the control loops it starts and cancels. */
module Leadership {

  /** What one poll of the node list answers. */
  datatype Poll = Leader | Follower | Unreachable | Worker

  /** The watcher's variables: what it last stood for, and whether it has polled yet. */
  datatype Watcher = Watcher(current: bool, first: bool)

  const START := Watcher(false, true)

  function Advance(w: Watcher, poll: Poll): Watcher {
    Watcher(poll.Leader? || poll.Unreachable?, false)
  }

  /** What the watcher sends on the channel for one poll: nothing, or one value. */
  function Sends(w: Watcher, poll: Poll): seq<bool> {
    match poll
    case Worker => []
    case Unreachable => if w.current || w.first then [true] else []
    case Leader => if !w.current || w.first then [true] else []
    case Follower => if w.current || w.first then [false] else []
  }

  function After(polls: seq<Poll>): Watcher {
    if polls == [] then START else Advance(After(polls[..|polls| - 1]), polls[|polls| - 1])
  }

  function Emitted(polls: seq<Poll>): seq<bool> {
    if polls == [] then []
    else Emitted(polls[..|polls| - 1]) + Sends(After(polls[..|polls| - 1]), polls[|polls| - 1])
  }

  /** `WatchSwarmLeadership`: the polling loop. */
  method WatchSwarmLeadership(polls: seq<Poll>) returns (out: seq<bool>)
    ensures out == Emitted(polls)
  {
    out := [];
    var current, first := false, true;
    for i := 0 to |polls|
      invariant out == Emitted(polls[..i]) && Watcher(current, first) == After(polls[..i])
    {
      assert polls[..i + 1][..i] == polls[..i];
      match polls[i]
      case Worker =>
        assert out + [] == out;
        current, first := false, false;
      case Unreachable =>
        if current || first {
          out := out + [true];
        } else {
          assert out + [] == out;
        }
        current, first := true, false;
      case Leader =>
        if !current || first {
          out := out + [true];
        } else {
          assert out + [] == out;
        }
        current, first := true, false;
      case Follower =>
        if current || first {
          out := out + [false];
        } else {
          assert out + [] == out;
        }
        current, first := false, false;
    }
    assert polls[..|polls|] == polls;
  }

  // ---- plain leader elections ---------------------------------------------

  ghost predicate Decided(polls: seq<Poll>) {
    forall i :: 0 <= i < |polls| ==> polls[i].Leader? || polls[i].Follower?
  }

  /** The poll sequence with immediate repeats removed. */
  function Edges(polls: seq<Poll>): seq<bool> {
    if polls == [] then []
    else
      var init, last := polls[..|polls| - 1], polls[|polls| - 1];
      if init != [] && init[|init| - 1] == last then Edges(init) else Edges(init) + [last.Leader?]
  }

  /** While every poll answers leader or follower, the channel carries exactly the edges. */
  lemma {:induction false} EmitsExactlyTheEdges(polls: seq<Poll>)
    requires Decided(polls)
    ensures Emitted(polls) == Edges(polls)
  {
    if polls != [] {
      var init := polls[..|polls| - 1];
      EmitsExactlyTheEdges(init);
      if init != [] {
        assert init[|init| - 1].Leader? || init[|init| - 1].Follower?;
      }
    }
  }

  // ---- the consumer -------------------------------------------------------

  /** What the consumer has running after a sequence of emissions. */
  function Live(emitted: seq<bool>): bool {
    emitted != [] && emitted[|emitted| - 1]
  }

  /** The control loops and their contexts, numbered in order of creation. */
  class ControlLoops {
    var started: nat
    var uncancelled: set<nat>
    var loopCancel: int

    ghost predicate Valid()
      reads this
    {
      && -1 <= loopCancel < started
      && uncancelled == if loopCancel == -1 then {} else {loopCancel}
    }

    constructor ()
      ensures Valid() && loopCancel == -1 && started == 0
    {
      started, uncancelled, loopCancel := 0, {}, -1;
    }

    /** The consumer loop of `serve`: for every sequence of emissions whatever, at most one
        context is ever uncancelled, and one is exactly when the last value was true. Each
        true starts a fresh one. */
    method Consume(leadership: seq<bool>)
      requires Valid() && loopCancel == -1
      modifies this
      ensures Valid() && |uncancelled| <= 1
      ensures uncancelled != {} <==> Live(leadership)
      ensures started == old(started) + Trues(leadership)
    {
      for i := 0 to |leadership|
        invariant Valid() && (loopCancel != -1 <==> Live(leadership[..i]))
        invariant started == old(started) + Trues(leadership[..i])
      {
        assert leadership[..i + 1][..i] == leadership[..i];
        if loopCancel != -1 {
          uncancelled := uncancelled - {loopCancel};
          loopCancel := -1;
        }
        if leadership[i] {
          uncancelled := uncancelled + {started};
          loopCancel := started;
          started := started + 1;
        }
      }
      assert leadership[..|leadership|] == leadership;
    }
  }

  function Trues(emitted: seq<bool>): nat {
    if emitted == [] then 0 else Trues(emitted[..|emitted| - 1]) + if emitted[|emitted| - 1] then 1 else 0
  }

  // ---- when the loops follow the polls ------------------------------------

  /** The polls on which the control loops should run: leader, or standalone. */
  predicate Up(poll: Poll) { poll.Leader? || poll.Unreachable? }

  /** A poll whose change the watcher does not announce. */
  predicate Unannounced(before: Poll, now: Poll) {
    || (!Up(before) && now.Unreachable?)
    || (Up(before) && now.Worker?)
  }

  ghost predicate Announced(polls: seq<Poll>) {
    forall i :: 0 < i < |polls| ==> !Unannounced(polls[i - 1], polls[i])
  }

  /** After every poll so far the loops run exactly when that poll says they should. */
  ghost predicate Follows(polls: seq<Poll>) {
    polls == [] ||
    (Follows(polls[..|polls| - 1]) && (Live(Emitted(polls)) <==> Up(polls[|polls| - 1])))
  }

  lemma OnePollMore(polls: seq<Poll>)
    requires polls != []
    requires |polls| > 1 ==> (Live(Emitted(polls[..|polls| - 1])) <==> Up(polls[|polls| - 2]))
    ensures (Live(Emitted(polls)) <==> Up(polls[|polls| - 1])) <==>
              (|polls| > 1 ==> !Unannounced(polls[|polls| - 2], polls[|polls| - 1]))
  {
    var init := polls[..|polls| - 1];
    if init == [] {
      assert Emitted(init) == [];
    } else {
      assert init[|init| - 1] == polls[|polls| - 2];
    }
    var e, s := Emitted(init), Sends(After(init), polls[|polls| - 1]);
    if s == [] {
      assert e + s == e;
    }
  }

  lemma AnnouncedByLast(polls: seq<Poll>)
    requires polls != []
    ensures Announced(polls) <==>
              && Announced(polls[..|polls| - 1])
              && (|polls| > 1 ==> !Unannounced(polls[|polls| - 2], polls[|polls| - 1]))
  {
  }

  /** The exact condition: the loops follow the polls throughout a run if and only if no
      poll answers unreachable straight after follower or worker, and none answers worker
      straight after leader or unreachable. */
  lemma {:induction false} LoopsFollowPolls(polls: seq<Poll>)
    ensures Follows(polls) <==> Announced(polls)
  {
    if polls != [] {
      var init := polls[..|polls| - 1];
      LoopsFollowPolls(init);
      AnnouncedByLast(polls);
      if Follows(init) {
        OnePollMore(polls);
      }
    }
  }

  /** In particular, over polls that all answer leader or follower the loops are live
      exactly when the last poll said leader. */
  lemma LiveIffLeader(polls: seq<Poll>)
    requires Decided(polls) && polls != []
    ensures Live(Emitted(polls)) <==> polls[|polls| - 1].Leader?
  {
    LoopsFollowPolls(polls);
  }
}
