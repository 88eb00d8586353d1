/** Sending one artifact to every destination, leg by leg. */
module Ship {
  import opened Grammar

  /** How the three calls of one leg end: a PUT may be stored or not, and acknowledged or
      not, independently; the HEAD that confirms may go unanswered. */
  datatype Answers = Answers(manifestStored: bool, manifestAcked: bool, archiveStored: bool, archiveAcked: bool,
                             headAnswered: bool)

  datatype Target = Target(objects: set<string>)

  /** Nothing leaves a destination and only the artifact's two objects may enter it. */
  ghost predicate OnlyAdds(t: Target, t': Target, name: string) {
    t.objects <= t'.objects <= t.objects + {name, ManifestName(name)}
  }

  /** An archive that came in came in with its sidecar. */
  ghost predicate Vouched(t: Target, t': Target, name: string) {
    name in t'.objects && name !in t.objects ==> ManifestName(name) in t'.objects
  }

  /** Every call of the leg went through and the archive was seen there. */
  ghost predicate LegSucceeds(t: Target, name: string, hasManifest: bool, a: Answers) {
    && (hasManifest ==> a.manifestAcked)
    && a.archiveAcked && a.headAnswered && (a.archiveStored || name in t.objects)
  }

  /** What a leg leaves in its destination: the sidecar if it was sent and stored, the
      archive if the leg got that far and it was stored. */
  ghost function LegAfter(t: Target, name: string, hasManifest: bool, a: Answers): Target {
    var sidecar := if hasManifest && a.manifestStored then {ManifestName(name)} else {};
    var archive := if (hasManifest ==> a.manifestAcked) && a.archiveStored then {name} else {};
    Target(t.objects + sidecar + archive)
  }

  lemma LegMeaning(t: Target, name: string, hasManifest: bool, a: Answers)
    ensures var t' := LegAfter(t, name, hasManifest, a);
            && OnlyAdds(t, t', name)
            && (LegSucceeds(t, name, hasManifest, a) ==> name in t'.objects)
            && (hasManifest && (a.manifestAcked ==> a.manifestStored) ==> Vouched(t, t', name))
  {
    assert name != ManifestName(name);
  }

  class Destinations {
    var targets: seq<Target>

    constructor (targets: seq<Target>)
      ensures this.targets == targets
    {
      this.targets := targets;
    }

    method Put(i: nat, key: string, stored: bool)
      requires i < |targets|
      modifies this
      ensures targets == if stored then old(targets)[i := Target(old(targets)[i].objects + {key})] else old(targets)
    {
      if stored {
        targets := targets[i := Target(targets[i].objects + {key})];
      }
    }

    /** One leg: the sidecar if there is one, then the archive, then the confirmation. */
    method ShipLeg(i: nat, name: string, hasManifest: bool, a: Answers) returns (ok: bool)
      requires i < |targets|
      modifies this
      ensures targets == old(targets)[i := LegAfter(old(targets)[i], name, hasManifest, a)]
      ensures ok <==> LegSucceeds(old(targets)[i], name, hasManifest, a)
      ensures OnlyAdds(old(targets)[i], targets[i], name)
      ensures ok ==> name in targets[i].objects
      ensures hasManifest && (a.manifestAcked ==> a.manifestStored) ==> Vouched(old(targets)[i], targets[i], name)
    {
      ghost var after := LegAfter(targets[i], name, hasManifest, a);
      LegMeaning(targets[i], name, hasManifest, a);
      assert name != ManifestName(name);
      if hasManifest {
        Put(i, ManifestName(name), a.manifestStored);
        if !a.manifestAcked {
          assert targets[i].objects == after.objects;
          return false;
        }
      }
      Put(i, name, a.archiveStored);
      assert targets[i].objects == after.objects;
      if !a.archiveAcked || !a.headAnswered {
        return false;
      }
      ok := name in targets[i].objects;
    }

    /** The ship closure: legs in order, stopping at the first that fails. It succeeds
        exactly when every leg does; the destinations up to the failing one are left as
        their legs leave them, those behind it are not contacted. */
    method Ship(name: string, hasManifest: bool, answers: seq<Answers>) returns (confirmed: nat, ok: bool)
      requires |answers| == |targets|
      modifies this
      ensures |targets| == |old(targets)| && confirmed <= |targets|
      ensures ok <==> confirmed == |targets|
      ensures ok <==> forall i :: 0 <= i < |targets| ==> LegSucceeds(old(targets)[i], name, hasManifest, answers[i])
      ensures forall i :: 0 <= i < confirmed ==> LegSucceeds(old(targets)[i], name, hasManifest, answers[i])
      ensures !ok ==> !LegSucceeds(old(targets)[confirmed], name, hasManifest, answers[confirmed])
      ensures forall i :: 0 <= i < |targets| ==>
                            targets[i] ==
                            if i <= confirmed then LegAfter(old(targets)[i], name, hasManifest, answers[i])
                            else old(targets)[i]
      ensures forall i :: 0 <= i < confirmed ==> name in targets[i].objects
      ensures hasManifest && (forall i :: 0 <= i < |answers| ==>
                                            (answers[i].manifestAcked ==> answers[i].manifestStored)) ==>
                forall i :: 0 <= i < |targets| ==> Vouched(old(targets)[i], targets[i], name)
    {
      confirmed, ok := 0, true;
      while confirmed < |targets|
        invariant ok && |targets| == |old(targets)| && confirmed <= |targets|
        invariant forall i :: 0 <= i < confirmed ==> LegSucceeds(old(targets)[i], name, hasManifest, answers[i])
        invariant forall i :: 0 <= i < confirmed ==>
                                targets[i] == LegAfter(old(targets)[i], name, hasManifest, answers[i])
        invariant forall i :: confirmed <= i < |targets| ==> targets[i] == old(targets)[i]
        decreases |targets| - confirmed
      {
        ok := ShipLeg(confirmed, name, hasManifest, answers[confirmed]);
        if !ok {
          break;
        }
        confirmed := confirmed + 1;
      }
      forall i | 0 <= i < |targets| && i <= confirmed
        ensures OnlyAdds(old(targets)[i], targets[i], name)
        ensures i < confirmed ==> name in targets[i].objects
        ensures hasManifest && (answers[i].manifestAcked ==> answers[i].manifestStored) ==>
                  Vouched(old(targets)[i], targets[i], name)
      {
        LegMeaning(old(targets)[i], name, hasManifest, answers[i]);
      }
    }
  }
}
