/** The mutable policy state manager (policy/state.go) against the policy values. */
module StateManagers {
  import opened Basics
  import opened Strings
  import opened Merkle
  import opened Records
  import opened PolicyState

  lemma LeafHashesSnoc(h: Sha, inputs: seq<Bytes>, i: nat)
    requires i < |inputs|
    ensures LeafHashes(h, inputs[..i + 1]) == LeafHashes(h, inputs[..i]) + [h(inputs[i])]
  {
  }

  lemma LeafHashesCons(h: Sha, first: Bytes, rest: seq<Bytes>)
    ensures LeafHashes(h, [first] + rest) == [h(first)] + LeafHashes(h, rest)
  {
  }

  class SignerEnrollment {
    const signerID: Bytes
    const publicKeyShare: Bytes
    var status: SignerStatus
    var enrolledAt: int

    constructor (signerID: Bytes, publicKeyShare: Bytes, status: SignerStatus, enrolledAt: int)
      ensures this.signerID == signerID && this.publicKeyShare == publicKeyShare
      ensures this.status == status && this.enrolledAt == enrolledAt
    {
      this.signerID := signerID;
      this.publicKeyShare := publicKeyShare;
      this.status := status;
      this.enrolledAt := enrolledAt;
    }

    function Value(): Enrollment
      reads this
    {
      Enrollment(signerID, publicKeyShare, status, enrolledAt)
    }
  }

  class StateManager {
    const sha: Sha
    const thresholdConfig: ThresholdConfig
    var enrolledSigners: map<Bytes, SignerEnrollment>
    var version: Uint64

    /** Each enrollment is filed under its own ID, so no object appears twice. */
    ghost predicate Valid()
      reads this
    {
      forall id :: id in enrolledSigners ==> enrolledSigners[id].signerID == id
    }

    ghost function Value(): Policy
      reads this, enrolledSigners.Values
    {
      Policy(map id | id in enrolledSigners :: enrolledSigners[id].Value(), thresholdConfig, version)
    }

    constructor (sha: Sha, threshold: ThresholdConfig)
      ensures Valid() && Value() == InitialPolicy(threshold)
      ensures this.sha == sha && enrolledSigners == map[]
    {
      this.sha := sha;
      thresholdConfig := threshold;
      enrolledSigners := map[];
      version := 0;
    }

    method EnrollSigner(enrollment: SignerEnrollment, now: int) returns (r: VersionResult)
      requires Valid()
      modifies this, enrollment
      ensures Valid()
      ensures var op := Enroll(enrollment.signerID, enrollment.publicKeyShare, now);
              Value() == Apply(old(Value()), op) && r == Answer(old(Value()), op)
      ensures enrolledSigners == if r.Ok? then old(enrolledSigners)[enrollment.signerID := enrollment]
                                 else old(enrolledSigners)
    {
      if enrollment.signerID == [] {
        return Err(MissingID);
      }
      if enrollment.signerID in enrolledSigners {
        return Err(AlreadyEnrolled);
      }
      enrollment.enrolledAt := now;
      enrollment.status := Active;
      enrolledSigners := enrolledSigners[enrollment.signerID := enrollment];
      version := (version + 1) % TWO_64;
      return Ok(version);
    }

    /** The record a status operation may write to. */
    ghost function Target(signerID: Bytes): set<SignerEnrollment>
      reads this
    {
      if signerID in enrolledSigners then {enrolledSigners[signerID]} else {}
    }

    method RevokeSigner(signerID: Bytes) returns (r: VersionResult)
      requires Valid()
      modifies this`version, Target(signerID)
      ensures Valid()
      ensures Value() == Apply(old(Value()), Revoke(signerID)) && r == Answer(old(Value()), Revoke(signerID))
    {
      if signerID !in enrolledSigners {
        return Err(NotFound);
      }
      var signer := enrolledSigners[signerID];
      if signer.status == Revoked {
        return Err(AlreadyRevoked);
      }
      signer.status := Revoked;
      version := (version + 1) % TWO_64;
      return Ok(version);
    }

    method SuspendSigner(signerID: Bytes) returns (r: VersionResult)
      requires Valid()
      modifies this`version, Target(signerID)
      ensures Valid()
      ensures Value() == Apply(old(Value()), Suspend(signerID)) && r == Answer(old(Value()), Suspend(signerID))
    {
      if signerID !in enrolledSigners {
        return Err(NotFound);
      }
      var signer := enrolledSigners[signerID];
      if signer.status != Active {
        return Err(NotActive);
      }
      signer.status := Suspended;
      version := (version + 1) % TWO_64;
      return Ok(version);
    }

    method ReactivateSigner(signerID: Bytes) returns (r: VersionResult)
      requires Valid()
      modifies this`version, Target(signerID)
      ensures Valid()
      ensures Value() == Apply(old(Value()), Reactivate(signerID)) && r == Answer(old(Value()), Reactivate(signerID))
    {
      if signerID !in enrolledSigners {
        return Err(NotFound);
      }
      var signer := enrolledSigners[signerID];
      if signer.status != Suspended {
        return Err(NotSuspended);
      }
      signer.status := Active;
      version := (version + 1) % TWO_64;
      return Ok(version);
    }

    /** Ranges over the map in an arbitrary order. */
    method GetActiveSigners() returns (active: seq<Bytes>)
      requires Valid()
      ensures Lists(active, Value().ActiveIds())
    {
      active := [];
      var pending := enrolledSigners.Keys;
      while pending != {}
        invariant pending <= enrolledSigners.Keys
        invariant Lists(active, Value().ActiveIds() - pending)
        decreases pending
      {
        var id :| id in pending;
        pending := pending - {id};
        if enrolledSigners[id].status == Active {
          active := active + [id];
        }
      }
    }

    /** Collects the map's keys in an arbitrary order and sorts them. */
    method SortedSignerIDs() returns (ids: seq<Bytes>)
      ensures ids == SortedIds(Value().signers.Keys)
    {
      assert enrolledSigners.Keys == Value().signers.Keys;
      ids := [];
      var pending := enrolledSigners.Keys;
      while pending != {}
        invariant pending <= enrolledSigners.Keys
        invariant Lists(ids, enrolledSigners.Keys - pending)
        decreases pending
      {
        var id :| id in pending;
        pending := pending - {id};
        ids := ids + [id];
      }
      SortedIdsCanonical(ids, enrolledSigners.Keys);
      ids := Sort(ids);
    }

    method LeafOf(id: Bytes, ghost p: Policy) returns (leaf: Bytes)
      requires p == Value() && id in p.signers
      ensures leaf == SignerLeaf(p.signers[id])
    {
      leaf := SignerLeaf(enrolledSigners[id].Value());
    }

    method HashLeaves(ids: seq<Bytes>, ghost p: Policy) returns (leaves: seq<Digest>)
      requires p == Value() && forall id :: id in ids ==> id in p.signers
      ensures leaves == LeafHashes(sha, PolicyLeaves(p, ids))
    {
      ghost var rest := SignerLeaves(p.signers, ids);
      assert rest[..0] == [];
      leaves := [sha(ConfigLeaf(thresholdConfig))];
      var i := 0;
      while i < |ids|
        invariant 0 <= i <= |ids|
        invariant leaves == [sha(ConfigLeaf(thresholdConfig))] + LeafHashes(sha, rest[..i])
      {
        var leaf := LeafOf(ids[i], p);
        LeafHashesSnoc(sha, rest, i);
        leaves := leaves + [sha(leaf)];
        i := i + 1;
      }
      assert rest[..i] == rest;
      LeafHashesCons(sha, ConfigLeaf(p.config), rest);
    }

    /** ComputeStateRoot once the IDs are sorted. */
    method RootFor(ids: seq<Bytes>, ghost p: Policy) returns (root: Digest)
      requires p == Value() && ids == SortedIds(p.signers.Keys)
      ensures root == StateRoot(sha, p)
    {
      SortedLeavesGiveRoot(sha, p, ids);
      var leaves := HashLeaves(ids, p);
      root := ComputeMerkleRoot(sha, leaves);
    }

    method ComputeStateRoot() returns (root: Digest)
      requires Valid()
      ensures root == StateRoot(sha, Value())
    {
      ghost var p := Value();
      var ids := SortedSignerIDs();
      root := RootFor(ids, p);
    }

    method CreateStateRecord(now: Timestamp) returns (record: Record)
      requires Valid()
      ensures record == StateRecord(sha, Value(), now)
    {
      var root := ComputeStateRoot();
      record := Record(version, root, now, []);
    }
  }

  datatype CreateError = InvalidThreshold

  /** NewStateManager refuses a threshold that is not between 1 and the total. */
  method NewStateManager(sha: Sha, threshold: ThresholdConfig) returns (r: Result<StateManager, CreateError>)
    ensures r.Ok? <==> 0 < threshold.threshold <= threshold.total
    ensures r.Ok? ==> fresh(r.value) && r.value.Valid() && r.value.Value() == InitialPolicy(threshold)
                      && r.value.enrolledSigners == map[]
  {
    if !threshold.Valid() {
      return Err(InvalidThreshold);
    }
    var sm := new StateManager(sha, threshold);
    return Ok(sm);
  }
}
