/** Quorum counting and the monotonic policy validator (policy/validator.go). */
module Validators {
  import opened Basics
  import opened Records

  /** Ed25519 verification is a parameter: (public key, hash, signature) to verdict. */
  type Ed25519 = (Bytes, Digest, Bytes) -> bool

  const PUBLIC_KEY_SIZE: nat := 32

  datatype Guardian = Guardian(id: Bytes, publicKey: Bytes)

  /** The immutable part of a validator, with the two cryptographic parameters. */
  datatype QuorumRules = QuorumRules(sha: Sha, verify: Ed25519, guardians: map<Bytes, Guardian>, threshold: int)

  datatype TransitionError = RollbackDetected | InsufficientQuorum

  type Verdict = Option<TransitionError>

  ghost predicate SignedBy(q: QuorumRules, hash: Digest, sigs: seq<QuorumSignature>, id: Bytes) {
    exists i :: 0 <= i < |sigs| && sigs[i].signerID == id
                && id in q.guardians && q.verify(q.guardians[id].publicKey, hash, sigs[i].signature)
  }

  /** The known guardians with at least one verifying signature in the list. */
  ghost function Signers(q: QuorumRules, hash: Digest, sigs: seq<QuorumSignature>): set<Bytes> {
    set id | id in q.guardians && SignedBy(q, hash, sigs, id)
  }

  ghost function RecordSigners(q: QuorumRules, r: Record): set<Bytes> {
    Signers(q, RecordHash(q.sha, r), r.quorumSignatures)
  }

  ghost predicate HasQuorum(q: QuorumRules, r: Record) {
    |RecordSigners(q, r)| >= q.threshold
  }

  /** The verdict against a snapshot of the last known version. */
  ghost function VerdictAgainst(q: QuorumRules, snapshot: Uint64, r: Record): Verdict {
    if r.version <= snapshot then Some(RollbackDetected)
    else if HasQuorum(q, r) then None
    else Some(InsufficientQuorum)
  }

  lemma {:induction false} SignersStep(q: QuorumRules, hash: Digest, sigs: seq<QuorumSignature>, i: nat)
    requires i < |sigs|
    ensures var id := sigs[i].signerID;
            Signers(q, hash, sigs[..i + 1]) ==
            Signers(q, hash, sigs[..i]) +
            (if id in q.guardians && q.verify(q.guardians[id].publicKey, hash, sigs[i].signature) then {id} else {})
  {
    var a, b := sigs[..i], sigs[..i + 1];
    forall id ensures SignedBy(q, hash, b, id) <==>
        SignedBy(q, hash, a, id) ||
        (id == sigs[i].signerID && id in q.guardians && q.verify(q.guardians[id].publicKey, hash, sigs[i].signature))
    {
      if SignedBy(q, hash, a, id) {
        var k :| 0 <= k < |a| && a[k].signerID == id && id in q.guardians
                 && q.verify(q.guardians[id].publicKey, hash, a[k].signature);
        assert b[k] == a[k];
      }
      if SignedBy(q, hash, b, id) {
        var k :| 0 <= k < |b| && b[k].signerID == id && id in q.guardians
                 && q.verify(q.guardians[id].publicKey, hash, b[k].signature);
        if k < i { assert a[k] == b[k]; }
      }
      assert b[i] == sigs[i];
    }
  }

  /** No list yields more signers than it has entries. */
  lemma {:induction false} SignersAtMostLength(q: QuorumRules, hash: Digest, sigs: seq<QuorumSignature>)
    ensures |Signers(q, hash, sigs)| <= |sigs|
  {
    if sigs == [] {
      assert Signers(q, hash, sigs) == {};
    } else {
      var n := |sigs| - 1;
      SignersAtMostLength(q, hash, sigs[..n]);
      SignersStep(q, hash, sigs, n);
      assert sigs[..n + 1] == sigs;
    }
  }

  /** Adding signatures anywhere, or reordering them, never loses a quorum. */
  lemma QuorumMonotone(q: QuorumRules, a: Record, b: Record)
    requires Encoding(a) == Encoding(b)
    requires forall s :: s in a.quorumSignatures ==> s in b.quorumSignatures
    ensures RecordSigners(q, a) <= RecordSigners(q, b)
    ensures HasQuorum(q, a) ==> HasQuorum(q, b)
  {
    var hash := RecordHash(q.sha, a);
    forall id | SignedBy(q, hash, a.quorumSignatures, id) ensures SignedBy(q, hash, b.quorumSignatures, id) {
      var k :| 0 <= k < |a.quorumSignatures| && a.quorumSignatures[k].signerID == id && id in q.guardians
               && q.verify(q.guardians[id].publicKey, hash, a.quorumSignatures[k].signature);
      assert a.quorumSignatures[k] in b.quorumSignatures;
    }
    SubsetSize(RecordSigners(q, a), RecordSigners(q, b));
  }

  /** The verdict depends on version, root, seconds and the set of signatures alone: neither
      their order, nor repetition, nor the record's fraction of a second matters. */
  lemma VerdictDependsOnSignedFields(q: QuorumRules, snapshot: Uint64, a: Record, b: Record)
    requires a.version == b.version && a.stateRoot == b.stateRoot && a.timestamp.unix == b.timestamp.unix
    requires forall s :: s in a.quorumSignatures <==> s in b.quorumSignatures
    ensures VerdictAgainst(q, snapshot, a) == VerdictAgainst(q, snapshot, b)
  {
    EncodingInjective(a, b);
    QuorumMonotone(q, a, b);
    QuorumMonotone(q, b, a);
  }

  /** Any two quorums share at least 2t - n guardians. */
  lemma QuorumsIntersect(q: QuorumRules, a: Record, b: Record)
    requires HasQuorum(q, a) && HasQuorum(q, b)
    ensures |RecordSigners(q, a) * RecordSigners(q, b)| >= 2 * q.threshold - |q.guardians|
  {
    var x, y := RecordSigners(q, a), RecordSigners(q, b);
    assert |x + y| == |x| + |y| - |x * y|;
    SubsetSize(x + y, q.guardians.Keys);
    assert |q.guardians.Keys| == |q.guardians|;
  }

  /** With fewer distinct guardians than the threshold no record is ever accepted. This can
      happen because NewValidator compares the threshold with a list that may repeat an ID. */
  lemma TooFewGuardians(q: QuorumRules, r: Record)
    requires |q.guardians| < q.threshold
    ensures !HasQuorum(q, r)
  {
    SubsetSize(RecordSigners(q, r), q.guardians.Keys);
    assert |q.guardians.Keys| == |q.guardians|;
  }

  /** A record that every guardian signed has a quorum exactly when the threshold does not
      exceed the number of distinct guardian IDs. */
  lemma FullySignedQuorum(q: QuorumRules, r: Record)
    requires forall id :: id in q.guardians ==> SignedBy(q, RecordHash(q.sha, r), r.quorumSignatures, id)
    ensures HasQuorum(q, r) <==> q.threshold <= |q.guardians|
  {
    assert RecordSigners(q, r) == q.guardians.Keys;
    assert |q.guardians.Keys| == |q.guardians|;
  }

  // ---- What a verdict means ----

  /** The guardian's signature, over the hash of the 48 bytes that read as the record's fields,
      is in the list under its ID. */
  ghost predicate GuardianSigned(q: QuorumRules, r: Record, id: Bytes) {
    && id in q.guardians
    && exists s, b :: s in r.quorumSignatures && s.signerID == id && ReadsAs(b, r)
                      && q.verify(q.guardians[id].publicKey, q.sha(b), s.signature)
  }

  ghost predicate ReadsAs(b: Bytes, r: Record) {
    |b| == 48 && Decode(b) == SignedFields(r.version, r.stateRoot, r.timestamp.unix)
  }

  ghost predicate SignedByAll(q: QuorumRules, r: Record, ids: set<Bytes>) {
    forall id :: id in ids ==> GuardianSigned(q, r, id)
  }

  /** As many different guardians as the threshold asks for have signed. */
  ghost predicate EnoughSigned(q: QuorumRules, r: Record) {
    exists ids :: |ids| >= q.threshold && SignedByAll(q, r, ids)
  }

  lemma GuardianSignedIff(q: QuorumRules, r: Record, id: Bytes)
    ensures id in RecordSigners(q, r) <==> GuardianSigned(q, r, id)
  {
    EncodingRoundTrip(r);
    assert ReadsAs(Encoding(r), r);
    if id in RecordSigners(q, r) {
      var i :| 0 <= i < |r.quorumSignatures| && r.quorumSignatures[i].signerID == id
               && q.verify(q.guardians[id].publicKey, RecordHash(q.sha, r), r.quorumSignatures[i].signature);
      assert r.quorumSignatures[i] in r.quorumSignatures;
      RecordHashOf(q.sha, r, Encoding(r));
    }
    if GuardianSigned(q, r, id) {
      var s, b :| s in r.quorumSignatures && s.signerID == id && ReadsAs(b, r)
                  && q.verify(q.guardians[id].publicKey, q.sha(b), s.signature);
      RecordHashOf(q.sha, r, b);
      var i :| 0 <= i < |r.quorumSignatures| && r.quorumSignatures[i] == s;
      assert SignedBy(q, RecordHash(q.sha, r), r.quorumSignatures, id);
    }
  }

  lemma QuorumIffEnoughSigned(q: QuorumRules, r: Record)
    ensures HasQuorum(q, r) <==> EnoughSigned(q, r)
  {
    forall id ensures id in RecordSigners(q, r) <==> GuardianSigned(q, r, id) {
      GuardianSignedIff(q, r, id);
    }
    if HasQuorum(q, r) {
      assert SignedByAll(q, r, RecordSigners(q, r));
    }
    if EnoughSigned(q, r) {
      var ids :| |ids| >= q.threshold && SignedByAll(q, r, ids);
      assert ids <= RecordSigners(q, r);
      SubsetSize(ids, RecordSigners(q, r));
    }
  }

  /** A record is accepted exactly if it is newer and enough different guardians have signed the
      hash of its 48 bytes; an older one is a rollback, whoever has signed it. */
  lemma AcceptedIff(q: QuorumRules, last: Uint64, r: Record)
    ensures VerdictAgainst(q, last, r) == None <==> r.version > last && EnoughSigned(q, r)
    ensures VerdictAgainst(q, last, r) == Some(RollbackDetected) <==> r.version <= last
    ensures VerdictAgainst(q, last, r) == Some(InsufficientQuorum) <==> r.version > last && !EnoughSigned(q, r)
  {
    QuorumIffEnoughSigned(q, r);
  }

  // ---- When acceptance means that all signatures are valid ----

  /** The entry is by a known guardian and verifies. */
  predicate ValidEntry(q: QuorumRules, hash: Digest, s: QuorumSignature) {
    s.signerID in q.guardians && q.verify(q.guardians[s.signerID].publicKey, hash, s.signature)
  }

  /** What ValidateTransition announces of an accepted record. */
  ghost predicate AllValid(q: QuorumRules, r: Record) {
    forall i :: 0 <= i < |r.quorumSignatures| ==> ValidEntry(q, RecordHash(q.sha, r), r.quorumSignatures[i])
  }

  ghost predicate DistinctEntries(sigs: seq<QuorumSignature>) {
    forall i, j :: 0 <= i < j < |sigs| ==> sigs[i].signerID != sigs[j].signerID
  }

  /** In a list with as many signers as entries the last entry adds one. */
  lemma LastEntryCounts(q: QuorumRules, hash: Digest, sigs: seq<QuorumSignature>)
    requires sigs != [] && |Signers(q, hash, sigs)| >= |sigs|
    ensures var n := |sigs| - 1;
            && ValidEntry(q, hash, sigs[n]) && |Signers(q, hash, sigs[..n])| >= n
            && sigs[n].signerID !in Signers(q, hash, sigs[..n])
  {
    var n := |sigs| - 1;
    SignersStep(q, hash, sigs, n);
    SignersAtMostLength(q, hash, sigs[..n]);
    assert sigs[..n + 1] == sigs;
  }

  lemma ValidEntrySigns(q: QuorumRules, hash: Digest, sigs: seq<QuorumSignature>, i: nat)
    requires i < |sigs| && ValidEntry(q, hash, sigs[i])
    ensures sigs[i].signerID in Signers(q, hash, sigs)
  {
    assert SignedBy(q, hash, sigs, sigs[i].signerID);
  }

  /** A list with as many signers as entries has only valid entries, by different guardians. */
  lemma {:induction false} FullCountAllValid(q: QuorumRules, hash: Digest, sigs: seq<QuorumSignature>)
    requires |Signers(q, hash, sigs)| >= |sigs|
    ensures forall i :: 0 <= i < |sigs| ==> ValidEntry(q, hash, sigs[i])
    ensures DistinctEntries(sigs)
  {
    if sigs == [] {
    } else {
      var n := |sigs| - 1;
      var front := sigs[..n];
      LastEntryCounts(q, hash, sigs);
      FullCountAllValid(q, hash, front);
      forall i | 0 <= i < n ensures ValidEntry(q, hash, sigs[i]) && sigs[i].signerID != sigs[n].signerID {
        assert front[i] == sigs[i];
        ValidEntrySigns(q, hash, front, i);
      }
      assert forall i, j :: 0 <= i < j < n ==> front[i].signerID != front[j].signerID;
    }
  }

  /** An accepted list no longer than the threshold has exactly that length, and all its
      entries are valid and by different guardians. */
  lemma ShortQuorumAllValid(q: QuorumRules, r: Record)
    requires HasQuorum(q, r) && |r.quorumSignatures| <= q.threshold
    ensures |r.quorumSignatures| == q.threshold && AllValid(q, r) && DistinctEntries(r.quorumSignatures)
  {
    SignersAtMostLength(q, RecordHash(q.sha, r), r.quorumSignatures);
    FullCountAllValid(q, RecordHash(q.sha, r), r.quorumSignatures);
  }

  function WithSignatures(r: Record, more: seq<QuorumSignature>): Record {
    r.(quorumSignatures := r.quorumSignatures + more)
  }

  /** An accepted record stays accepted whatever signatures are appended, so an invalid one
      among them is a record that is accepted although not all its signatures are valid. */
  lemma AnySignaturesMayFollow(q: QuorumRules, snapshot: Uint64, r: Record, more: seq<QuorumSignature>)
    requires VerdictAgainst(q, snapshot, r).None?
    ensures VerdictAgainst(q, snapshot, WithSignatures(r, more)).None?
    ensures AllValid(q, WithSignatures(r, more)) <==>
            AllValid(q, r) && forall s :: s in more ==> ValidEntry(q, RecordHash(q.sha, r), s)
  {
    var r' := WithSignatures(r, more);
    EncodingInjective(r, r');
    QuorumMonotone(q, r, r');
    var a, b, n := r.quorumSignatures, r'.quorumSignatures, |r.quorumSignatures|;
    assert forall i :: 0 <= i < n ==> b[i] == a[i];
    assert forall i :: 0 <= i < |more| ==> b[n + i] == more[i];
  }

  /** An ID that is longer than all of these. */
  ghost function Outside(ids: set<Bytes>): (x: Bytes)
    ensures forall id :: id in ids ==> |id| < |x|
  {
    if ids == {} then [0] else
      var y :| y in ids;
      var x := Outside(ids - {y});
      if |y| < |x| then x else y + [0]
  }

  /** Records that say the same, signed by lists of length n. */
  ghost predicate Variant(r: Record, n: nat, r': Record) {
    |r'.quorumSignatures| == n && Encoding(r') == Encoding(r)
  }

  /** For a record that exactly as many signatures as the threshold carry: all accepted lists
      of n signatures on it are free of invalid ones exactly if n does not exceed the threshold. */
  lemma AcceptanceMeansAllValidIff(q: QuorumRules, r: Record, n: nat)
    requires HasQuorum(q, r) && |r.quorumSignatures| <= q.threshold
    ensures (forall r' :: Variant(r, n, r') && HasQuorum(q, r') ==> AllValid(q, r')) <==> n <= q.threshold
  {
    if n <= q.threshold {
      forall r' | Variant(r, n, r') && HasQuorum(q, r') ensures AllValid(q, r') {
        ShortQuorumAllValid(q, r');
      }
    } else {
      var junk := QuorumSignature(Outside(q.guardians.Keys), []);
      var more := seq(n - |r.quorumSignatures|, _ => junk);
      var r' := WithSignatures(r, more);
      assert junk.signerID !in q.guardians && more[0] == junk && junk in more;
      EncodingInjective(r, r');
      QuorumMonotone(q, r, r');
      assert r'.quorumSignatures[|r.quorumSignatures|] == junk;
      assert Variant(r, n, r') && !AllValid(q, r');
    }
  }

  // ---- The validator ----

  datatype ConfigError = ThresholdNotPositive | ThresholdExceedsGuardians | InvalidPublicKeySize

  /** The map NewValidator builds: a later guardian replaces an earlier one with its ID. */
  function GuardianMap(gs: seq<Guardian>): map<Bytes, Guardian> {
    if gs == [] then map[]
    else
      var g := gs[|gs| - 1];
      GuardianMap(gs[..|gs| - 1])[g.id := g]
  }

  /** The map has one entry per distinct ID, and files each guardian under its own. */
  lemma {:induction false} GuardianMapFiles(gs: seq<Guardian>)
    ensures GuardianMap(gs).Keys == (set g | g in gs :: g.id)
    ensures forall id :: id in GuardianMap(gs) ==> GuardianMap(gs)[id] in gs && GuardianMap(gs)[id].id == id
  {
    if gs == [] {
    } else {
      var n := |gs| - 1;
      GuardianMapFiles(gs[..n]);
      assert gs == gs[..n] + [gs[n]];
    }
  }

  /** Of the guardians listed under one ID, the last counts. */
  lemma {:induction false} LastGuardianCounts(gs: seq<Guardian>, k: nat)
    requires k < |gs| && forall j :: k < j < |gs| ==> gs[j].id != gs[k].id
    ensures gs[k].id in GuardianMap(gs) && GuardianMap(gs)[gs[k].id] == gs[k]
  {
    var n := |gs| - 1;
    if k == n {
    } else {
      assert gs[..n][k] == gs[k];
      LastGuardianCounts(gs[..n], k);
    }
  }

  /** One more entry counts exactly if it is valid and its signer has not been seen. */
  lemma SignersNext(q: QuorumRules, hash: Digest, sigs: seq<QuorumSignature>, i: nat)
    requires i < |sigs|
    ensures var seen, id := Signers(q, hash, sigs[..i]), sigs[i].signerID;
            Signers(q, hash, sigs[..i + 1]) ==
            if id !in seen && ValidEntry(q, hash, sigs[i]) then seen + {id} else seen
  {
    SignersStep(q, hash, sigs, i);
  }

  class Validator {
    const sha: Sha
    const verify: Ed25519
    const guardians: map<Bytes, Guardian>
    const threshold: int
    var lastKnownVersion: Uint64

    constructor (sha: Sha, verify: Ed25519, guardians: map<Bytes, Guardian>, threshold: int, initial: Uint64)
      ensures this.Rules() == QuorumRules(sha, verify, guardians, threshold)
      ensures lastKnownVersion == initial
    {
      this.sha := sha;
      this.verify := verify;
      this.guardians := guardians;
      this.threshold := threshold;
      lastKnownVersion := initial;
    }

    ghost function Rules(): QuorumRules {
      QuorumRules(sha, verify, guardians, threshold)
    }

    /** The section under the read lock. */
    method ReadVersion() returns (v: Uint64)
      ensures v == lastKnownVersion
    {
      return lastKnownVersion;
    }

    /** The counting loop: duplicates and unknown signers are skipped. */
    method CountValid(hash: Digest, sigs: seq<QuorumSignature>) returns (validSigs: nat)
      ensures validSigs == |Signers(Rules(), hash, sigs)|
    {
      ghost var q := Rules();
      validSigs := 0;
      var seenSigners: set<Bytes> := {};
      var i := 0;
      assert Signers(q, hash, sigs[..0]) == {};
      while i < |sigs|
        invariant 0 <= i <= |sigs|
        invariant seenSigners == Signers(q, hash, sigs[..i])
        invariant validSigs == |seenSigners|
      {
        var sig := sigs[i];
        SignersNext(q, hash, sigs, i);
        if sig.signerID !in seenSigners && sig.signerID in guardians {
          if verify(guardians[sig.signerID].publicKey, hash, sig.signature) {
            validSigs := validSigs + 1;
            seenSigners := seenSigners + {sig.signerID};
          }
        }
        i := i + 1;
      }
      assert sigs[..i] == sigs;
    }

    /** The checks made between the two critical sections. */
    method CheckAgainst(snapshot: Uint64, record: Record) returns (v: Verdict)
      ensures v == VerdictAgainst(Rules(), snapshot, record)
    {
      if record.version <= snapshot {
        return Some(RollbackDetected);
      }
      ghost var hash := RecordHash(sha, record);
      SignersAtMostLength(Rules(), hash, record.quorumSignatures);
      if |record.quorumSignatures| < threshold {
        return Some(InsufficientQuorum);
      }
      var digest := Hash(sha, record);
      var validSigs := CountValid(digest, record.quorumSignatures);
      if validSigs < threshold {
        return Some(InsufficientQuorum);
      }
      return None;
    }

    method ValidateTransition(record: Record) returns (v: Verdict)
      ensures v == VerdictAgainst(Rules(), lastKnownVersion, record)
    {
      var lastVersion := ReadVersion();
      v := CheckAgainst(lastVersion, record);
    }

    /** The section under the write lock, with its second look at the version. */
    method CommitVersion(record: Record) returns (v: Verdict)
      modifies this
      ensures v == if record.version <= old(lastKnownVersion) then Some(RollbackDetected) else None
      ensures lastKnownVersion == if v.None? then record.version else old(lastKnownVersion)
    {
      if record.version <= lastKnownVersion {
        return Some(RollbackDetected);
      }
      lastKnownVersion := record.version;
      return None;
    }

    /** Without interference the two critical sections act as one. */
    method AcceptTransition(record: Record) returns (v: Verdict)
      modifies this
      ensures v == VerdictAgainst(Rules(), old(lastKnownVersion), record)
      ensures lastKnownVersion == if v.None? then record.version else old(lastKnownVersion)
    {
      v := ValidateTransition(record);
      if v.Some? {
        return v;
      }
      v := CommitVersion(record);
    }
  }

  lemma GuardianMapSnoc(gs: seq<Guardian>, i: nat)
    requires i < |gs|
    ensures GuardianMap(gs[..i + 1]) == GuardianMap(gs[..i])[gs[i].id := gs[i]]
  {
    assert gs[..i + 1][..i] == gs[..i];
  }

  predicate KeySizesOk(gs: seq<Guardian>) {
    forall i :: 0 <= i < |gs| ==> |gs[i].publicKey| == PUBLIC_KEY_SIZE
  }

  /** What NewValidator demands. */
  predicate Configurable(gs: seq<Guardian>, threshold: int) {
    0 < threshold <= |gs| && KeySizesOk(gs)
  }

  /** The loop that files guardians under their IDs. */
  method CollectGuardians(gs: seq<Guardian>) returns (r: Option<map<Bytes, Guardian>>)
    ensures r == if KeySizesOk(gs) then Some(GuardianMap(gs)) else None
  {
    var guardians: map<Bytes, Guardian> := map[];
    var i := 0;
    while i < |gs|
      invariant 0 <= i <= |gs|
      invariant guardians == GuardianMap(gs[..i])
      invariant forall j :: 0 <= j < i ==> |gs[j].publicKey| == PUBLIC_KEY_SIZE
    {
      var g := gs[i];
      if |g.publicKey| != PUBLIC_KEY_SIZE {
        assert !KeySizesOk(gs);
        return None;
      }
      GuardianMapSnoc(gs, i);
      guardians := guardians[g.id := g];
      i := i + 1;
    }
    assert KeySizesOk(gs) && gs[..i] == gs;
    return Some(guardians);
  }

  method NewValidator(sha: Sha, verify: Ed25519, gs: seq<Guardian>, threshold: int, initial: Uint64)
      returns (r: Result<Validator, ConfigError>)
    ensures r.Ok? <==> Configurable(gs, threshold)
    ensures r.Ok? <==> 0 < threshold <= |gs| && forall i :: 0 <= i < |gs| ==> |gs[i].publicKey| == 32
    ensures r == Err(ThresholdNotPositive) <==> threshold <= 0
    ensures r == Err(ThresholdExceedsGuardians) <==> threshold > 0 && threshold > |gs|
    ensures r.Ok? ==> fresh(r.value) && r.value.lastKnownVersion == initial
                      && r.value.Rules() == QuorumRules(sha, verify, GuardianMap(gs), threshold)
  {
    if threshold <= 0 {
      return Err(ThresholdNotPositive);
    }
    if threshold > |gs| {
      return Err(ThresholdExceedsGuardians);
    }
    var guardians := CollectGuardians(gs);
    if guardians.None? {
      return Err(InvalidPublicKeySize);
    }
    var v := new Validator(sha, verify, guardians.value, threshold, initial);
    return Ok(v);
  }

  /** Two guardians under one ID, whatever their keys, pass the constructor's tests with
      threshold 2, yet no record can then be accepted. */
  lemma DuplicateGuardiansLockOut(sha: Sha, verify: Ed25519, g: Guardian, g': Guardian, r: Record)
    requires g.id == g'.id && |g.publicKey| == |g'.publicKey| == PUBLIC_KEY_SIZE
    ensures Configurable([g, g'], 2)
    ensures !HasQuorum(QuorumRules(sha, verify, GuardianMap([g, g']), 2), r)
  {
    var m := GuardianMap([g, g']);
    GuardianMapFiles([g, g']);
    assert m.Keys == {g.id};
    assert |m| == |m.Keys| == 1;
    TooFewGuardians(QuorumRules(sha, verify, m, 2), r);
  }
}
