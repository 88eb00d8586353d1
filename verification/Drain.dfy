/** Pausing a stack around a restore and putting it back. */
module Drain {
  import opened Common
  import opened Tree
  import opened Restore
  import V = Volume

  datatype Service = Service(id: string, name: string, stack: string, isGlobal: bool, runOnce: bool,
                             desired: nat, replicas: nat)

  /** How a scale call ends: an error may or may not have taken effect. */
  datatype Call = Done | ErrorApplied | ErrorLost

  /** One answer of the polling loop. */
  datatype Poll = ListFailed | Listed(services: seq<Service>)

  /** The services a drain pauses: replicated, long-running, not already at zero. */
  predicate Eligible(s: Service, stack: string) {
    s.stack == stack && !s.isGlobal && !s.runOnce && s.desired != 0
  }

  function Paused(listing: seq<Service>, stack: string): seq<Service> {
    if listing == [] then []
    else
      var init, last := Paused(listing[..|listing| - 1], stack), listing[|listing| - 1];
      if Eligible(last, stack) then init + [last] else init
  }

  lemma {:induction false} PausedMeaning(listing: seq<Service>, stack: string)
    ensures forall s :: s in Paused(listing, stack) <==> s in listing && Eligible(s, stack)
  {
    if listing != [] {
      PausedMeaning(listing[..|listing| - 1], stack);
    }
  }

  /** What the swarm guarantees of a listing: ids and names are unique, and each service
      reports the replica count it is asked for. */
  ghost predicate Faithful(listing: seq<Service>, desired: map<string, nat>) {
    && (forall s :: s in listing ==> s.id in desired && desired[s.id] == s.desired)
    && (forall s, r :: s in listing && r in listing && (s.id == r.id || s.name == r.name) ==> s == r)
  }

  ghost function Ids(paused: seq<Service>): set<string> {
    set s | s in paused :: s.id
  }

  /** Only the services in `paused` may differ. */
  ghost predicate OnlyPaused(d: map<string, nat>, d': map<string, nat>, paused: seq<Service>) {
    d'.Keys == d.Keys && forall id :: id in d && id !in Ids(paused) ==> d'[id] == d[id]
  }

  /** No paused service of the stack has a running task in this answer. */
  ghost predicate Quiet(services: seq<Service>, stack: string, names: set<string>) {
    forall s :: s in services && s.stack == stack && s.name in names ==> s.replicas == 0
  }

  /** The waiting ends well: some answer is quiet, and every answer before it is one. */
  ghost predicate QuietInTime(polls: seq<Poll>, stack: string, names: set<string>) {
    exists k :: && 0 <= k < |polls| && polls[k].Listed? && Quiet(polls[k].services, stack, names)
                && forall j :: 0 <= j < k ==> polls[j].Listed?
  }

  ghost function PausedNames(listing: seq<Service>, stack: string): set<string> {
    set s | s in Paused(listing, stack) :: s.name
  }

  /** What a drain needs to succeed: a stack without a name needs nothing; otherwise the
      services are listed, and either none is to be paused, or every call that scales one
      down goes through and the stack is seen quiet in time. */
  ghost predicate DrainSucceeds(stack: string, listing: Poll, down: nat -> Call, polls: seq<Poll>) {
    || stack == ""
    || (listing.Listed? && (|| Paused(listing.services, stack) == []
                            || ((forall i :: 0 <= i < |Paused(listing.services, stack)| ==> down(i) == Done)
                                && QuietInTime(polls, stack, PausedNames(listing.services, stack)))))
  }

  predicate AllDone(up: nat -> Call, n: nat) {
    forall i :: 0 <= i < n ==> up(i) != ErrorLost
  }

  /** A service of the stack runs on every node and cannot be paused. */
  ghost predicate GlobalOf(listing: seq<Service>, stack: string, name: string) {
    exists s :: s in listing && s.stack == stack && s.isGlobal && s.name == name
  }

  lemma GlobalOneMore(listing: seq<Service>, i: nat, stack: string)
    requires i < |listing|
    ensures forall n :: GlobalOf(listing[..i + 1], stack, n) <==>
                          GlobalOf(listing[..i], stack, n) ||
                          (listing[i].stack == stack && listing[i].isGlobal && listing[i].name == n)
  {
    var init, more := listing[..i], listing[..i + 1];
    assert more == init + [listing[i]];
    forall n
      ensures GlobalOf(more, stack, n) <==>
                GlobalOf(init, stack, n) || (listing[i].stack == stack && listing[i].isGlobal && listing[i].name == n)
    {
      if GlobalOf(init, stack, n) {
        var s :| s in init && s.stack == stack && s.isGlobal && s.name == n;
        assert s in more;
      }
      assert listing[i] in more;
    }
  }

  class Swarm {
    var desired: map<string, nat>

    constructor (desired: map<string, nat>)
      ensures this.desired == desired
    {
      this.desired := desired;
    }

    method ScaleService(id: string, n: nat, c: Call) returns (ok: bool)
      requires id in desired
      modifies this
      ensures ok <==> c == Done
      ensures desired == if c == ErrorLost then old(desired) else old(desired)[id := n]
    {
      if c != ErrorLost {
        desired := desired[id := n];
      }
      ok := c == Done;
    }

    /** `undo`: every paused service back to the count noted under its name. Errors are
        only logged. */
    method Undo(paused: seq<Service>, counts: map<string, nat>, up: nat -> Call)
      requires forall s :: s in paused ==> s.id in desired && s.name in counts && counts[s.name] == s.desired
      requires forall s, r :: s in paused && r in paused && s.id == r.id ==> s == r
      modifies this
      ensures OnlyPaused(old(desired), desired, paused)
      ensures forall i :: 0 <= i < |paused| && up(i) != ErrorLost ==> desired[paused[i].id] == paused[i].desired
      ensures (forall s :: s in paused ==> old(desired)[s.id] == s.desired) ==> desired == old(desired)
    {
      for i := 0 to |paused|
        invariant OnlyPaused(old(desired), desired, paused)
        invariant (forall s :: s in paused ==> old(desired)[s.id] == s.desired) ==> desired == old(desired)
        invariant forall j :: 0 <= j < i && up(j) != ErrorLost ==> desired[paused[j].id] == paused[j].desired
      {
        var s := paused[i];
        assert s.id in Ids(paused);
        var _ := ScaleService(s.id, counts[s.name], up(i));
      }
    }

    /** The first loop of `Drain`: which services to pause, their counts, and the global
        services that can only be reported. */
    method Choose(listing: seq<Service>, stack: string)
      returns (paused: seq<Service>, counts: map<string, nat>, skipped: seq<string>)
      requires Faithful(listing, desired)
      ensures paused == Paused(listing, stack)
      ensures forall s :: s in paused ==> s.name in counts && counts[s.name] == s.desired
      ensures counts.Keys == PausedNames(listing, stack)
      ensures forall n :: n in skipped <==> GlobalOf(listing, stack, n)
    {
      paused, counts, skipped := [], map[], [];
      for i := 0 to |listing|
        invariant paused == Paused(listing[..i], stack)
        invariant forall s :: s in paused ==> s in listing && s.name in counts && counts[s.name] == s.desired
        invariant forall n :: n in counts ==> exists s :: s in paused && s.name == n
        invariant forall n :: n in skipped <==> GlobalOf(listing[..i], stack, n)
      {
        assert listing[..i + 1][..i] == listing[..i];
        GlobalOneMore(listing, i, stack);
        var s := listing[i];
        if s.stack != stack {
          continue;
        }
        if s.isGlobal {
          skipped := skipped + [s.name];
          continue;
        }
        if s.runOnce || s.desired == 0 {
          continue;
        }
        ghost var before, known := paused, counts;
        counts := counts[s.name := s.desired];
        paused := paused + [s];
        forall n | n in counts
          ensures exists r :: r in paused && r.name == n
        {
          if n in known {
            var r :| r in before && r.name == n;
            assert r in paused;
          } else {
            assert s in paused;
          }
        }
      }
      assert listing[..|listing|] == listing;
    }

    /** Scaling every chosen service to zero, stopping at the first error. */
    method ScaleDown(paused: seq<Service>, down: nat -> Call) returns (ok: bool)
      requires forall s :: s in paused ==> s.id in desired
      modifies this
      ensures OnlyPaused(old(desired), desired, paused)
      ensures ok <==> forall i :: 0 <= i < |paused| ==> down(i) == Done
      ensures ok ==> forall s :: s in paused ==> desired[s.id] == 0
    {
      for i := 0 to |paused|
        invariant OnlyPaused(old(desired), desired, paused)
        invariant forall j :: 0 <= j < i ==> down(j) == Done && desired[paused[j].id] == 0
      {
        assert paused[i].id in Ids(paused);
        ok := ScaleService(paused[i].id, 0, down(i));
        if !ok {
          return;
        }
      }
      ok := true;
    }

    /** `Drain`. The listing it starts from, the outcome of each scale call, and the answers
        of the polling loop up to its deadline are given. When it succeeds its undo is armed
        for `paused`; on every other exit it has already undone what it did. */
    method Drain(stack: string, listing: Poll, down: nat -> Call, polls: seq<Poll>, up: nat -> Call)
      returns (ok: bool, paused: seq<Service>, counts: map<string, nat>)
      requires listing.Listed? ==> Faithful(listing.services, desired)
      modifies this
      ensures forall s :: s in paused ==> s.id in desired && s.name in counts && counts[s.name] == s.desired
      ensures forall s :: s in paused ==> listing.Listed? && s in listing.services && Eligible(s, stack)
      ensures OnlyPaused(old(desired), desired, paused)
      ensures !ok && AllDone(up, |paused|) ==> desired == old(desired)
      ensures ok <==> DrainSucceeds(stack, listing, down, polls)
      ensures ok && stack != "" ==> listing.Listed? && paused == Paused(listing.services, stack)
      ensures stack == "" ==> ok && paused == [] && desired == old(desired)
      ensures ok ==> forall s :: s in paused ==> desired[s.id] == 0
    {
      if stack == "" {
        return true, [], map[];
      }
      if listing.ListFailed? {
        return false, [], map[];
      }
      ok := true;
      var skipped;
      paused, counts, skipped := Choose(listing.services, stack);
      PausedMeaning(listing.services, stack);
      if paused == [] {
        return;
      }
      ok := PauseOrUndo(stack, paused, counts, down, polls, up);
    }

    /** Scaling down and waiting; every failure puts the services back. */
    method PauseOrUndo(stack: string, paused: seq<Service>, counts: map<string, nat>, down: nat -> Call,
                       polls: seq<Poll>, up: nat -> Call) returns (ok: bool)
      requires forall s :: s in paused ==> s.id in desired && desired[s.id] == s.desired
      requires forall s :: s in paused ==> s.name in counts && counts[s.name] == s.desired
      requires forall s, r :: s in paused && r in paused && s.id == r.id ==> s == r
      modifies this
      ensures OnlyPaused(old(desired), desired, paused)
      ensures ok <==> (forall i :: 0 <= i < |paused| ==> down(i) == Done) && QuietInTime(polls, stack, counts.Keys)
      ensures ok ==> forall s :: s in paused ==> desired[s.id] == 0
      ensures !ok && AllDone(up, |paused|) ==> desired == old(desired)
    {
      ok := ScaleDown(paused, down);
      if ok {
        ok := WaitQuiet(stack, counts, polls);
      }
      if !ok {
        Undo(paused, counts, up);
        if AllDone(up, |paused|) {
          UndoRestores(old(desired), desired, paused);
        }
      }
    }

    /** The polling loop and `stillRunning`: it ends with the first quiet answer, with a
        failed listing, or when the answers run out (deadline or cancellation). */
    method WaitQuiet(stack: string, counts: map<string, nat>, polls: seq<Poll>) returns (quiet: bool)
      ensures quiet <==> QuietInTime(polls, stack, counts.Keys)
    {
      for i := 0 to |polls|
        invariant forall j :: 0 <= j < i ==> polls[j].Listed? && !Quiet(polls[j].services, stack, counts.Keys)
      {
        if polls[i].ListFailed? {
          return false;
        }
        var running := StillRunning(polls[i].services, stack, counts);
        if running == [] {
          return true;
        }
      }
      return false;
    }

    method StillRunning(services: seq<Service>, stack: string, counts: map<string, nat>) returns (running: seq<string>)
      ensures running == [] <==> Quiet(services, stack, counts.Keys)
    {
      running := [];
      for j := 0 to |services|
        invariant running == [] <==> Quiet(services[..j], stack, counts.Keys)
      {
        var s := services[j];
        assert services[..j + 1] == services[..j] + [s];
        if s.stack == stack && s.name in counts && s.replicas > 0 {
          assert s in services[..j + 1];
          running := running + [s.name];
        }
      }
      assert services[..|services|] == services;
    }

    /** Undoing twice: after a first undo whose calls took effect the second changes
        nothing, whatever becomes of its calls. */
    method UndoTwice(paused: seq<Service>, counts: map<string, nat>, up: nat -> Call, again: nat -> Call)
      returns (ghost once: map<string, nat>)
      requires forall s :: s in paused ==> s.id in desired && s.name in counts && counts[s.name] == s.desired
      requires forall s, r :: s in paused && r in paused && s.id == r.id ==> s == r
      modifies this
      ensures OnlyPaused(old(desired), once, paused) && OnlyPaused(once, desired, paused)
      ensures AllDone(up, |paused|) ==> desired == once && forall s :: s in paused ==> once[s.id] == s.desired
      ensures AllDone(again, |paused|) ==> forall s :: s in paused ==> desired[s.id] == s.desired
    {
      Undo(paused, counts, up);
      once := desired;
      Undo(paused, counts, again);
    }

    /** `Restore` with its drain: a run without archives is refused before anything is
        paused; a failed drain writes nothing; otherwise the restore runs while the paused
        services are at zero, and the deferred undo follows whatever it reported. Every
        replica count is then what it was. */
    method DrainedRestore(target: V.RestoreTarget, archives: seq<Archive>, stack: Option<string>, volume: Option<Path>,
                          stuck: set<Path>, drain: bool, listing: Poll, down: nat -> Call, polls: seq<Poll>,
                          up: nat -> Call)
      returns (report: Report, ran: bool, ghost paused: seq<Service>, ghost during: map<string, nat>)
      requires WellFormed(target.tree)
      requires listing.Listed? ==> Faithful(listing.services, desired)
      modifies this, target
      ensures AllDone(up, |paused|) ==> desired == old(desired)
      ensures OnlyPaused(old(desired), desired, paused)
      ensures forall s :: s in paused ==> stack.Some? && Eligible(s, stack.value)
      ensures archives == [] || !drain || stack.None? ==> paused == [] && desired == old(desired)
      ensures ran ==> Result(target.tree, report) ==
                      RestoreRun(old(target.tree), archives, FilterFor(stack, volume), DepthFor(volume), stuck)
      ensures !report.Stopped? && PlainArchives(archives) ==>
                RestoredFor(old(target.tree), target.tree, archives, stack, volume, stuck)
      ensures !ran ==> target.tree == old(target.tree) && report == Stopped
      ensures ran <==> archives != [] && (drain && stack.Some? ==> DrainSucceeds(stack.value, listing, down, polls))
      ensures ran && drain && stack.Some? && stack.value != "" ==>
                && listing.Listed? && paused == Paused(listing.services, stack.value)
                && forall s :: s in paused ==> s.id in during && during[s.id] == 0
    {
      ran, report, paused, during := false, Stopped, [], desired;
      if archives == [] {
        return;
      }
      var ps: seq<Service>, counts := [], map[];
      if drain && stack.Some? {
        var ok;
        ok, ps, counts := Drain(stack.value, listing, down, polls, up);
        paused := ps;
        if !ok {
          return;
        }
      }
      during := desired;
      ran := true;
      report := target.Run(archives, stack, volume, stuck);
      Undo(ps, counts, up);
      if AllDone(up, |ps|) {
        UndoRestores(old(desired), desired, ps);
      }
    }
  }

  /** Putting the paused services back to their listed counts restores the whole map. */
  lemma UndoRestores(d: map<string, nat>, d': map<string, nat>, paused: seq<Service>)
    requires OnlyPaused(d, d', paused)
    requires forall s :: s in paused ==> s.id in d && d[s.id] == s.desired && s.id in d' && d'[s.id] == s.desired
    ensures d' == d
  {
    forall id | id in d
      ensures d'[id] == d[id]
    {
      if id in Ids(paused) {
        var s :| s in paused && s.id == id;
      }
    }
  }
}
