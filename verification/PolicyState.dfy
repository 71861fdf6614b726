/** The versioned signer lifecycle and its state root (policy/state.go). */
module PolicyState {
  import opened Basics
  import opened Strings
  import opened Merkle
  import opened Records

  datatype SignerStatus = Active | Suspended | Revoked

  /** The status string that goes into a signer's leaf. */
  function StatusBytes(s: SignerStatus): Bytes {
    match s
    case Active => Ascii("active")
    case Suspended => Ascii("suspended")
    case Revoked => Ascii("revoked")
  }

  datatype ThresholdConfig = ThresholdConfig(threshold: int, total: int) {
    predicate Valid() {
      threshold > 0 && threshold <= total && total > 0
    }
  }

  datatype Enrollment = Enrollment(signerID: Bytes, publicKeyShare: Bytes, status: SignerStatus, enrolledAt: int)

  datatype Policy = Policy(signers: map<Bytes, Enrollment>, config: ThresholdConfig, version: Uint64) {
    /** Every signer is filed under its own ID. */
    ghost predicate Keyed() {
      forall id :: id in signers ==> signers[id].signerID == id
    }

    ghost function ActiveIds(): set<Bytes> {
      set id | id in signers && signers[id].status == Active
    }

    predicate HasStatus(id: Bytes, status: SignerStatus) {
      id in signers && signers[id].status == status
    }
  }

  datatype Operation =
    | Enroll(signerID: Bytes, publicKeyShare: Bytes, now: int)
    | Suspend(signerID: Bytes)
    | Reactivate(signerID: Bytes)
    | Revoke(signerID: Bytes)

  datatype PolicyError = MissingID | AlreadyEnrolled | NotFound | AlreadyRevoked | NotActive | NotSuspended

  type VersionResult = Result<Uint64, PolicyError>

  /** version++ on a uint64. */
  function NextVersion(v: Uint64): Uint64 {
    (v + 1) % TWO_64
  }

  function SetStatus(p: Policy, id: Bytes, status: SignerStatus): Policy
    requires id in p.signers
  {
    p.(signers := p.signers[id := p.signers[id].(status := status)], version := NextVersion(p.version))
  }

  /** The refusal of an operation, if any. */
  function Refusal(p: Policy, op: Operation): Option<PolicyError> {
    match op
    case Enroll(id, _, _) =>
      if id == [] then Some(MissingID) else if id in p.signers then Some(AlreadyEnrolled) else None
    case Revoke(id) =>
      if id !in p.signers then Some(NotFound)
      else if p.signers[id].status == Revoked then Some(AlreadyRevoked) else None
    case Suspend(id) =>
      if id !in p.signers then Some(NotFound)
      else if p.signers[id].status != Active then Some(NotActive) else None
    case Reactivate(id) =>
      if id !in p.signers then Some(NotFound)
      else if p.signers[id].status != Suspended then Some(NotSuspended) else None
  }

  function Apply(p: Policy, op: Operation): Policy {
    if Refusal(p, op).Some? then p
    else match op
      case Enroll(id, key, now) =>
        p.(signers := p.signers[id := Enrollment(id, key, Active, now)], version := NextVersion(p.version))
      case Revoke(id) => SetStatus(p, id, Revoked)
      case Suspend(id) => SetStatus(p, id, Suspended)
      case Reactivate(id) => SetStatus(p, id, Active)
  }

  function Answer(p: Policy, op: Operation): VersionResult {
    match Refusal(p, op)
    case Some(e) => Err(e)
    case None => Ok(Apply(p, op).version)
  }

  function InitialPolicy(config: ThresholdConfig): Policy {
    Policy(map[], config, 0)
  }

  // ---- Runs of lifecycle operations ----

  function RunOps(p: Policy, ops: seq<Operation>): Policy
    decreases |ops|
  {
    if ops == [] then p else RunOps(Apply(p, ops[0]), ops[1..])
  }

  function Successes(p: Policy, ops: seq<Operation>): nat
    decreases |ops|
  {
    if ops == [] then 0
    else (if Refusal(p, ops[0]).None? then 1 else 0) + Successes(Apply(p, ops[0]), ops[1..])
  }

  /** The version counts exactly the operations that succeeded. */
  lemma {:induction false} VersionCountsSuccesses(p: Policy, ops: seq<Operation>)
    requires p.version + Successes(p, ops) < TWO_64
    ensures RunOps(p, ops).version == p.version + Successes(p, ops)
    decreases |ops|
  {
    if ops == [] {
    } else {
      VersionCountsSuccesses(Apply(p, ops[0]), ops[1..]);
    }
  }

  /** With the wrap of a uint64, for any run whatever. */
  lemma {:induction false} VersionCountsModulo(p: Policy, ops: seq<Operation>)
    ensures RunOps(p, ops).version == (p.version + Successes(p, ops)) % 0x1_0000_0000_0000_0000
    decreases |ops|
  {
    if ops == [] {
    } else {
      VersionCountsModulo(Apply(p, ops[0]), ops[1..]);
    }
  }

  // ---- The life of one signer ----

  /** What is known of a signer: nothing, or its status. */
  function StatusIn(p: Policy, id: Bytes): Option<SignerStatus> {
    if id in p.signers then Some(p.signers[id].status) else None
  }

  /** The life cycle: enrolled once, suspended and reactivated in turns, revoked for ever. */
  function Life(s: Option<SignerStatus>, op: Operation): Option<SignerStatus> {
    match op
    case Enroll(id, _, _) => if s == None && id != [] then Some(Active) else s
    case Suspend(_) => if s == Some(Active) then Some(Suspended) else s
    case Reactivate(_) => if s == Some(Suspended) then Some(Active) else s
    case Revoke(_) => if s == None then s else Some(Revoked)
  }

  /** The life of signer `id` under those operations that name it. */
  function LifeUnder(s: Option<SignerStatus>, ops: seq<Operation>, id: Bytes): Option<SignerStatus>
    decreases |ops|
  {
    if ops == [] then s
    else LifeUnder(if ops[0].signerID == id then Life(s, ops[0]) else s, ops[1..], id)
  }

  /** In every run each signer leads its own life, untouched by operations on others. */
  lemma {:induction false} EachSignerLivesAlone(p: Policy, ops: seq<Operation>, id: Bytes)
    ensures StatusIn(RunOps(p, ops), id) == LifeUnder(StatusIn(p, id), ops, id)
    decreases |ops|
  {
    if ops == [] {
    } else {
      EachSignerLivesAlone(Apply(p, ops[0]), ops[1..], id);
    }
  }

  /** An operation succeeds exactly if it changes the status of the signer it names; it answers
      with the next version then, and is refused for a reason that fits the status otherwise. */
  lemma SucceedsIffStatusChanges(p: Policy, op: Operation)
    ensures var s := StatusIn(p, op.signerID);
            && (Answer(p, op).Ok? <==> Life(s, op) != s)
            && (Answer(p, op).Ok? ==> Answer(p, op).value == (p.version + 1) % 0x1_0000_0000_0000_0000)
            && (Answer(p, op) == Err(MissingID) <==> op.Enroll? && op.signerID == [])
            && (Answer(p, op) == Err(AlreadyEnrolled) <==> op.Enroll? && op.signerID != [] && s != None)
            && (Answer(p, op) == Err(NotFound) <==> !op.Enroll? && s == None)
            && (Answer(p, op) == Err(AlreadyRevoked) <==> op.Revoke? && s == Some(Revoked))
            && (Answer(p, op) == Err(NotActive) <==> op.Suspend? && s in {Some(Suspended), Some(Revoked)})
            && (Answer(p, op) == Err(NotSuspended) <==> op.Reactivate? && s in {Some(Active), Some(Revoked)})
    ensures Answer(p, op).Err? ==> Apply(p, op) == p
  {
  }

  /** A revocation that succeeds is final, whatever is tried afterwards. */
  lemma RevocationIsFinal(p: Policy, id: Bytes, ops: seq<Operation>)
    requires Answer(p, Revoke(id)).Ok?
    ensures RunOps(Apply(p, Revoke(id)), ops).HasStatus(id, Revoked)
  {
    RevokedForever(Apply(p, Revoke(id)), ops, id);
  }

  /** What is never written again once a signer is enrolled. */
  lemma {:induction false} EnrollmentKept(p: Policy, ops: seq<Operation>, id: Bytes)
    requires id in p.signers
    ensures RunOps(p, ops).config == p.config && id in RunOps(p, ops).signers
    ensures var e, e' := p.signers[id], RunOps(p, ops).signers[id];
            && e'.signerID == e.signerID && e'.publicKeyShare == e.publicKeyShare
            && e'.enrolledAt == e.enrolledAt
    decreases |ops|
  {
    if ops == [] {
    } else {
      EnrollmentKept(Apply(p, ops[0]), ops[1..], id);
    }
  }

  /** The active signers are those whose life has led there. */
  lemma ActiveIsLife(p: Policy, ops: seq<Operation>, id: Bytes)
    ensures id in RunOps(p, ops).ActiveIds() <==> LifeUnder(StatusIn(p, id), ops, id) == Some(Active)
  {
    EachSignerLivesAlone(p, ops, id);
  }

  /** Revocation is for ever. */
  lemma {:induction false} RevokedForever(p: Policy, ops: seq<Operation>, id: Bytes)
    requires p.HasStatus(id, Revoked)
    ensures RunOps(p, ops).HasStatus(id, Revoked)
    decreases |ops|
  {
    if ops == [] {
    } else {
      RevokedForever(Apply(p, ops[0]), ops[1..], id);
    }
  }

  lemma {:induction false} NoSuccessNoChange(p: Policy, ops: seq<Operation>)
    requires Successes(p, ops) == 0
    ensures RunOps(p, ops) == p
    decreases |ops|
  {
    if ops == [] {
    } else {
      NoSuccessNoChange(p, ops[1..]);
    }
  }

  lemma {:induction false} RunOpsAppend(p: Policy, a: seq<Operation>, b: seq<Operation>)
    ensures RunOps(p, a + b) == RunOps(RunOps(p, a), b)
    ensures Successes(p, a + b) == Successes(p, a) + Successes(RunOps(p, a), b)
    decreases |a|
  {
    if a == [] {
      assert a + b == b;
    } else {
      assert (a + b)[1..] == a[1..] + b;
      RunOpsAppend(Apply(p, a[0]), a[1..], b);
    }
  }

  lemma {:induction false} RunOpsKeyed(p: Policy, ops: seq<Operation>)
    requires p.Keyed()
    ensures RunOps(p, ops).Keyed() && RunOps(p, ops).config == p.config
    decreases |ops|
  {
    if ops == [] {
    } else {
      RunOpsKeyed(Apply(p, ops[0]), ops[1..]);
    }
  }

  // ---- The state root ----

  function ConfigLeaf(c: ThresholdConfig): Bytes {
    LittleEndian(c.threshold % TWO_32, 4) + LittleEndian(c.total % TWO_32, 4)
  }

  function SignerLeaf(e: Enrollment): Bytes {
    e.signerID + e.publicKeyShare + StatusBytes(e.status)
  }

  function SignerLeaves(signers: map<Bytes, Enrollment>, ids: seq<Bytes>): (r: seq<Bytes>)
    requires forall id :: id in ids ==> id in signers
    ensures |r| == |ids|
    ensures forall i :: 0 <= i < |ids| ==> r[i] == SignerLeaf(signers[ids[i]])
  {
    if ids == [] then [] else [SignerLeaf(signers[ids[0]])] + SignerLeaves(signers, ids[1..])
  }

  function PolicyLeaves(p: Policy, ids: seq<Bytes>): (r: seq<Bytes>)
    requires forall id :: id in ids ==> id in p.signers
    ensures |r| == 1 + |ids|
  {
    [ConfigLeaf(p.config)] + SignerLeaves(p.signers, ids)
  }

  /** What is hashed into leaves: the configuration, then the signers in ID order. */
  ghost function LeafInputs(p: Policy): (r: seq<Bytes>)
    ensures |r| == 1 + |p.signers|
  {
    SortedIdsMembers(p.signers.Keys);
    PolicyLeaves(p, SortedIds(p.signers.Keys))
  }

  ghost function StateRoot(h: Sha, p: Policy): Digest {
    RootOf(h, LeafInputs(p))
  }

  lemma SortedLeavesGiveRoot(h: Sha, p: Policy, ids: seq<Bytes>)
    requires ids == SortedIds(p.signers.Keys)
    ensures forall id :: id in ids ==> id in p.signers
    ensures TreeHash(h, LeafHashes(h, PolicyLeaves(p, ids))) == StateRoot(h, p)
  {
    SortedIdsMembers(p.signers.Keys);
  }

  /** The bytes of the configuration leaf, one by one. */
  lemma ConfigLeafBytes(c: ThresholdConfig)
    ensures |ConfigLeaf(c)| == 8
    ensures forall i :: 0 <= i < 4 ==>
              && ConfigLeaf(c)[i] == ((c.threshold % 0x1_0000_0000) / Pow256(i)) % 256
              && ConfigLeaf(c)[4 + i] == ((c.total % 0x1_0000_0000) / Pow256(i)) % 256
  {
    forall i | 0 <= i < 4
      ensures LittleEndian(c.threshold % TWO_32, 4)[i] == ((c.threshold % TWO_32) / Pow256(i)) % 256
      ensures LittleEndian(c.total % TWO_32, 4)[i] == ((c.total % TWO_32) / Pow256(i)) % 256
    {
      LittleEndianByte(c.threshold % TWO_32, 4, i);
      LittleEndianByte(c.total % TWO_32, 4, i);
    }
  }

  /** The bytes of the status strings: "active", "suspended" and "revoked" in ASCII. */
  lemma StatusStrings()
    ensures StatusBytes(Active) == [97, 99, 116, 105, 118, 101]
    ensures StatusBytes(Suspended) == [115, 117, 115, 112, 101, 110, 100, 101, 100]
    ensures StatusBytes(Revoked) == [114, 101, 118, 111, 107, 101, 100]
  {
  }

  /** No status string is the tail of another, so a leaf determines the status. */
  lemma StatusStringsSuffixFree(a: Bytes, s: SignerStatus, b: Bytes, t: SignerStatus)
    requires a + StatusBytes(s) == b + StatusBytes(t)
    ensures s == t && a == b
  {
    var x, y := a + StatusBytes(s), b + StatusBytes(t);
    assert x[|x| - 1] == StatusBytes(s)[|StatusBytes(s)| - 1];
    assert y[|y| - 1] == StatusBytes(t)[|StatusBytes(t)| - 1];
    assert x[|x| - 3] == StatusBytes(s)[|StatusBytes(s)| - 3];
    assert y[|y| - 3] == StatusBytes(t)[|StatusBytes(t)| - 3];
    assert s == t;
    assert a == x[..|x| - |StatusBytes(s)|];
    assert b == y[..|y| - |StatusBytes(t)|];
  }

  ghost predicate SameSigner(e: Enrollment, f: Enrollment) {
    e.status == f.status && e.signerID + e.publicKeyShare == f.signerID + f.publicKeyShare
  }

  ghost predicate SameAt(p: Policy, x: Bytes, q: Policy, y: Bytes) {
    x in p.signers && y in q.signers && SameSigner(p.signers[x], q.signers[y])
  }

  /** The part of two policies that their roots can tell apart, position by position in ID order. */
  ghost predicate SameCommitted(p: Policy, q: Policy) {
    var ids, ids' := SortedIds(p.signers.Keys), SortedIds(q.signers.Keys);
    && p.config.threshold % TWO_32 == q.config.threshold % TWO_32
    && p.config.total % TWO_32 == q.config.total % TWO_32
    && |ids| == |ids'|
    && forall i :: 0 <= i < |ids| ==> SameAt(p, ids[i], q, ids'[i])
  }

  lemma ConfigLeafInjective(c: ThresholdConfig, d: ThresholdConfig)
    ensures ConfigLeaf(c) == ConfigLeaf(d) <==>
            c.threshold % TWO_32 == d.threshold % TWO_32 && c.total % TWO_32 == d.total % TWO_32
  {
    assert Pow256(4) == TWO_32;
    LittleEndianRoundTrip(c.threshold % TWO_32, 4);
    LittleEndianRoundTrip(d.threshold % TWO_32, 4);
    LittleEndianRoundTrip(c.total % TWO_32, 4);
    LittleEndianRoundTrip(d.total % TWO_32, 4);
    if ConfigLeaf(c) == ConfigLeaf(d) {
      assert ConfigLeaf(c)[..4] == LittleEndian(c.threshold % TWO_32, 4);
      assert ConfigLeaf(d)[..4] == LittleEndian(d.threshold % TWO_32, 4);
      assert ConfigLeaf(c)[4..] == LittleEndian(c.total % TWO_32, 4);
      assert ConfigLeaf(d)[4..] == LittleEndian(d.total % TWO_32, 4);
    }
  }

  lemma SignerLeafDetermines(e: Enrollment, f: Enrollment)
    ensures SignerLeaf(e) == SignerLeaf(f) <==> SameSigner(e, f)
  {
    if SignerLeaf(e) == SignerLeaf(f) {
      StatusStringsSuffixFree(e.signerID + e.publicKeyShare, e.status, f.signerID + f.publicKeyShare, f.status);
    }
  }

  lemma SignerLeavesDetermine(m: map<Bytes, Enrollment>, ids: seq<Bytes>, n: map<Bytes, Enrollment>, ids': seq<Bytes>)
    requires (forall id :: id in ids ==> id in m) && (forall id :: id in ids' ==> id in n)
    requires |ids| == |ids'|
    ensures SignerLeaves(m, ids) == SignerLeaves(n, ids') <==>
            forall i :: 0 <= i < |ids| ==> SameSigner(m[ids[i]], n[ids'[i]])
  {
    var u, v := SignerLeaves(m, ids), SignerLeaves(n, ids');
    forall i | 0 <= i < |ids| ensures u[i] == v[i] <==> SameSigner(m[ids[i]], n[ids'[i]]) {
      SignerLeafDetermines(m[ids[i]], n[ids'[i]]);
    }
  }

  lemma ConsEqual(a: Bytes, u: seq<Bytes>, b: Bytes, v: seq<Bytes>)
    ensures [a] + u == [b] + v <==> a == b && u == v
  {
    if [a] + u == [b] + v {
      assert a == ([a] + u)[0] == ([b] + v)[0] == b;
      assert u == ([a] + u)[1..] == ([b] + v)[1..] == v;
    }
  }

  lemma OrderedLeavesDetermine(p: Policy, ids: seq<Bytes>, q: Policy, ids': seq<Bytes>)
    requires (forall id :: id in ids ==> id in p.signers) && (forall id :: id in ids' ==> id in q.signers)
    requires |ids| == |ids'|
    ensures SignerLeaves(p.signers, ids) == SignerLeaves(q.signers, ids') <==>
            forall i :: 0 <= i < |ids| ==> SameAt(p, ids[i], q, ids'[i])
  {
    SignerLeavesDetermine(p.signers, ids, q.signers, ids');
    forall i | 0 <= i < |ids|
      ensures SameAt(p, ids[i], q, ids'[i]) <==> SameSigner(p.signers[ids[i]], q.signers[ids'[i]])
    {
    }
  }

  lemma PolicyLeavesDetermine(p: Policy, ids: seq<Bytes>, q: Policy, ids': seq<Bytes>)
    requires (forall id :: id in ids ==> id in p.signers) && (forall id :: id in ids' ==> id in q.signers)
    ensures PolicyLeaves(p, ids) == PolicyLeaves(q, ids') <==>
            ConfigLeaf(p.config) == ConfigLeaf(q.config)
            && SignerLeaves(p.signers, ids) == SignerLeaves(q.signers, ids')
  {
    ConsEqual(ConfigLeaf(p.config), SignerLeaves(p.signers, ids), ConfigLeaf(q.config), SignerLeaves(q.signers, ids'));
  }

  lemma LeafInputsDetermine(p: Policy, q: Policy)
    ensures LeafInputs(p) == LeafInputs(q) <==> SameCommitted(p, q)
  {
    var ids, ids' := SortedIds(p.signers.Keys), SortedIds(q.signers.Keys);
    SortedIdsMembers(p.signers.Keys);
    SortedIdsMembers(q.signers.Keys);
    ConfigLeafInjective(p.config, q.config);
    PolicyLeavesDetermine(p, ids, q, ids');
    if |ids| == |ids'| {
      OrderedLeavesDetermine(p, ids, q, ids');
    }
  }

  /** The strings at which the computations of two roots part. */
  ghost function RootDivergence(h: Sha, p: Policy, q: Policy): (Bytes, Bytes) {
    Divergence(h, LeafInputs(p), LeafInputs(q))
  }

  /** Two policies with the same number of signers have one root exactly when they agree on
      what the root covers, unless the computation exhibits a hash collision. */
  lemma StateRootBinds(h: Sha, p: Policy, q: Policy)
    requires |p.signers| == |q.signers|
    ensures SameCommitted(p, q) ==> StateRoot(h, p) == StateRoot(h, q)
    ensures StateRoot(h, p) == StateRoot(h, q) && !SameCommitted(p, q) ==>
              var (x, y) := RootDivergence(h, p, q);
              Collide(h, x, y) && x in HashedInputs(h, LeafInputs(p)) && y in HashedInputs(h, LeafInputs(q))
  {
    LeafInputsDetermine(p, q);
    if StateRoot(h, p) == StateRoot(h, q) && !SameCommitted(p, q) {
      RootBinds(h, LeafInputs(p), LeafInputs(q));
    }
  }

  /** With different numbers of signers a shared root exhibits a collision, unless the two
      trees split alike at the root and a 64-byte leaf input passes for an inner node. */
  lemma StateRootBindsAcrossSizes(h: Sha, p: Policy, q: Policy)
    requires |p.signers| != |q.signers|
    ensures StateRoot(h, p) == StateRoot(h, q) ==>
            var (x, y) := RootDivergence(h, p, q);
            && x in HashedInputs(h, LeafInputs(p)) && y in HashedInputs(h, LeafInputs(q))
            && (Collide(h, x, y) ||
                (LeftSize(1 + |p.signers|) == LeftSize(1 + |q.signers|)
                 && |x| == 64 && (x in LeafInputs(p) || x in LeafInputs(q))))
  {
    if StateRoot(h, p) == StateRoot(h, q) {
      if LeftSize(1 + |p.signers|) == LeftSize(1 + |q.signers|) {
        RootBinds(h, LeafInputs(p), LeafInputs(q));
      } else {
        FirstLeafIsConfig(p);
        FirstLeafIsConfig(q);
        DifferentSplitsBind(h, LeafInputs(p), LeafInputs(q));
      }
    }
  }

  lemma FirstLeafIsConfig(p: Policy)
    ensures LeafInputs(p)[0] == ConfigLeaf(p.config) && |LeafInputs(p)[0]| == 8
  {
  }

  predicate EndsWith(x: Bytes, tail: Bytes) {
    |tail| <= |x| && x[|x| - |tail|..] == tail
  }

  lemma LeafEndsWithStatus(e: Enrollment)
    ensures EndsWith(SignerLeaf(e), StatusBytes(e.status))
  {
    ConcatEnds(e.signerID + e.publicKeyShare, StatusBytes(e.status));
  }

  lemma ConcatEnds(a: Bytes, tail: Bytes)
    ensures EndsWith(a + tail, tail)
  {
  }

  lemma SignerWithLeaf(x: Bytes, s: SignerStatus) returns (e: Enrollment)
    requires EndsWith(x, StatusBytes(s))
    ensures e.status == s && SignerLeaf(e) == x
    ensures e.signerID == x[..|x| - |StatusBytes(s)|]
  {
    var n := |x| - |StatusBytes(s)|;
    assert x[..n] + [] == x[..n] && x[..n] + x[n..] == x;
    e := Enrollment(x[..n], [], s, 0);
  }

  ghost predicate HasLeaf(e: Enrollment, x: Bytes, s: SignerStatus) {
    e.status == s && SignerLeaf(e) == x
  }

  /** The byte strings that are the leaf of some signer: those that end with a status string. */
  lemma SignerLeafForm(x: Bytes, s: SignerStatus)
    ensures (exists e :: HasLeaf(e, x, s)) <==> EndsWith(x, StatusBytes(s))
  {
    if e :| HasLeaf(e, x, s) {
      LeafEndsWithStatus(e);
    }
    if EndsWith(x, StatusBytes(s)) {
      var e := SignerWithLeaf(x, s);
      assert HasLeaf(e, x, s);
    }
  }

  /** The policy after enrolling signers in this order. */
  function Enrolled(config: ThresholdConfig, es: seq<Enrollment>): Policy {
    RunOps(InitialPolicy(config), Enrolments(es))
  }

  function Enrolments(es: seq<Enrollment>): (ops: seq<Operation>)
    ensures |ops| == |es|
  {
    if es == [] then []
    else [Enroll(es[0].signerID, es[0].publicKeyShare, es[0].enrolledAt)] + Enrolments(es[1..])
  }

  /** New active signers, given in the order of their IDs. */
  ghost predicate Newcomers(es: seq<Enrollment>) {
    && (forall i :: 0 <= i < |es| ==> es[i].signerID != [] && es[i].status == Active)
    && (forall i, j :: 0 <= i < j < |es| ==>
          es[i].signerID != es[j].signerID && Le(es[i].signerID, es[j].signerID))
  }

  function EnrollmentIds(es: seq<Enrollment>): (ids: seq<Bytes>)
    ensures |ids| == |es| && forall i :: 0 <= i < |es| ==> ids[i] == es[i].signerID
  {
    seq(|es|, i requires 0 <= i < |es| => es[i].signerID)
  }

  function EnrollmentLeaves(es: seq<Enrollment>): (r: seq<Bytes>)
    ensures |r| == |es| && forall i :: 0 <= i < |es| ==> r[i] == SignerLeaf(es[i])
  {
    seq(|es|, i requires 0 <= i < |es| => SignerLeaf(es[i]))
  }

  lemma EnrolFirst(p: Policy, es: seq<Enrollment>)
    requires es != [] && Newcomers(es) && forall e :: e in es ==> e.signerID !in p.signers
    ensures var op := Enrolments(es)[0];
            && Refusal(p, op).None?
            && Apply(p, op).signers == p.signers[es[0].signerID := es[0]] && Apply(p, op).config == p.config
            && Newcomers(es[1..]) && (forall e :: e in es[1..] ==> e.signerID !in Apply(p, op).signers)
  {
    assert es[0] in es;
  }

  lemma {:induction false} EnrolmentsFile(p: Policy, es: seq<Enrollment>)
    requires Newcomers(es) && forall e :: e in es ==> e.signerID !in p.signers
    ensures var q := RunOps(p, Enrolments(es));
            && q.config == p.config && Successes(p, Enrolments(es)) == |es|
            && q.signers.Keys == p.signers.Keys + (set e | e in es :: e.signerID)
            && (forall id :: id in p.signers ==> id in q.signers && q.signers[id] == p.signers[id])
            && (forall e :: e in es ==> e.signerID in q.signers && q.signers[e.signerID] == e)
    decreases |es|
  {
    if es == [] {
    } else {
      var p' := Apply(p, Enrolments(es)[0]);
      EnrolFirst(p, es);
      assert Enrolments(es)[1..] == Enrolments(es[1..]);
      assert es == [es[0]] + es[1..];
      EnrolmentsFile(p', es[1..]);
    }
  }

  lemma EnrolmentIdsSorted(es: seq<Enrollment>, keys: set<Bytes>)
    requires Newcomers(es) && keys == set e | e in es :: e.signerID
    ensures SortedIds(keys) == EnrollmentIds(es)
  {
    var ids := EnrollmentIds(es);
    forall x ensures x in ids <==> x in keys {
      if x in keys {
        var i :| 0 <= i < |es| && es[i].signerID == x;
        assert ids[i] == x;
      }
    }
    SortedIdsCanonical(ids, keys);
    SortSorts(ids);
    SortedUnique(Sort(ids), ids);
  }

  lemma LeavesOfListed(signers: map<Bytes, Enrollment>, es: seq<Enrollment>)
    requires forall e :: e in es ==> e.signerID in signers && signers[e.signerID] == e
    ensures forall id :: id in EnrollmentIds(es) ==> id in signers
    ensures SignerLeaves(signers, EnrollmentIds(es)) == EnrollmentLeaves(es)
  {
    var ids := EnrollmentIds(es);
    forall i | 0 <= i < |es| ensures ids[i] in signers && signers[ids[i]] == es[i] {
      assert es[i] in es;
    }
  }

  /** The leaf inputs of a policy built by enrolling signers in the order of their IDs. */
  lemma EnrolledLeaves(config: ThresholdConfig, es: seq<Enrollment>)
    requires Newcomers(es)
    ensures LeafInputs(Enrolled(config, es)) == [ConfigLeaf(config)] + EnrollmentLeaves(es)
  {
    var p := Enrolled(config, es);
    EnrolmentsFile(InitialPolicy(config), es);
    EnrolmentIdsSorted(es, p.signers.Keys);
    LeavesOfListed(p.signers, es);
  }

  lemma TwoLeaves(config: ThresholdConfig, a: Enrollment, x: Enrollment)
    ensures [ConfigLeaf(config)] + EnrollmentLeaves([a, x]) == [ConfigLeaf(config), SignerLeaf(a), SignerLeaf(x)]
  {
  }

  lemma ThreeLeaves(config: ThresholdConfig, a: Enrollment, b: Enrollment, d: Enrollment)
    ensures [ConfigLeaf(config)] + EnrollmentLeaves([a, b, d]) ==
            [ConfigLeaf(config), SignerLeaf(a), SignerLeaf(b), SignerLeaf(d)]
  {
  }

  /** Two signers against three that begin alike: the roots agree exactly if the leaf of the
      second is the inner node of the leaves of the last two, or a collision is exhibited.
      NewcomerWithLeafIff says when a second signer has that leaf. */
  lemma TwoAgainstThreeSigners(h: Sha, config: ThresholdConfig, a: Enrollment, x: Enrollment,
                               b: Enrollment, d: Enrollment)
    requires Newcomers([a, x]) && Newcomers([a, b, d])
    ensures var p, q := Enrolled(config, [a, x]), Enrolled(config, [a, b, d]);
            var node := Join(h(SignerLeaf(b)), h(SignerLeaf(d)));
            && |p.signers| == 2 && |q.signers| == 3
            && (SignerLeaf(x) == node ==> StateRoot(h, p) == StateRoot(h, q))
            && (StateRoot(h, p) == StateRoot(h, q) ==>
                  SignerLeaf(x) == node || GenuineCollision(h, LeafInputs(p), LeafInputs(q)))
  {
    EnrolledLeaves(config, [a, x]);
    EnrolledLeaves(config, [a, b, d]);
    TwoLeaves(config, a, x);
    ThreeLeaves(config, a, b, d);
    ThreeAgainstFour(h, ConfigLeaf(config), SignerLeaf(a), SignerLeaf(x), SignerLeaf(b), SignerLeaf(d));
  }

  // ---- When a second signer has such a leaf ----

  lemma {:induction false} PrefixPrecedes(a: Bytes, k: nat)
    requires k <= |a|
    ensures Le(a[..k], a)
    decreases k
  {
    if k == 0 {
    } else {
      PrefixPrecedes(a[1..], k - 1);
      assert a[..k][1..] == a[1..][..k - 1];
    }
  }

  /** Strictly earlier in the order of IDs. */
  predicate Before(a: Bytes, b: Bytes) {
    a != b && Le(a, b)
  }

  /** What the leaf of an active signer begins with: its ID and key. */
  function Stem(leaf: Bytes): Bytes
    requires EndsWith(leaf, StatusBytes(Active))
  {
    leaf[..|leaf| - |StatusBytes(Active)|]
  }

  /** x can be enrolled after `a`, in the order of IDs, and has this leaf. */
  ghost predicate SecondWithLeaf(a: Enrollment, x: Enrollment, leaf: Bytes) {
    Newcomers([a, x]) && SignerLeaf(x) == leaf
  }

  lemma SecondPrecedes(a: Enrollment, x: Enrollment, leaf: Bytes)
    requires SecondWithLeaf(a, x, leaf)
    ensures EndsWith(leaf, StatusBytes(Active)) && Before(a.signerID, Stem(leaf))
  {
    var ax := [a, x];
    assert ax[1].status == Active && ax[0].signerID != ax[1].signerID && Le(ax[0].signerID, ax[1].signerID);
    LeafEndsWithStatus(x);
    StemOf(x);
    PrefixPrecedes(Stem(leaf), |x.signerID|);
    assert Stem(leaf)[..|x.signerID|] == x.signerID;
    LeTransitive(a.signerID, x.signerID, Stem(leaf));
    if a.signerID == Stem(leaf) {
      LeAntisymmetric(x.signerID, a.signerID);
    }
  }

  lemma StemOf(x: Enrollment)
    requires x.status == Active && EndsWith(SignerLeaf(x), StatusBytes(Active))
    ensures Stem(SignerLeaf(x)) == x.signerID + x.publicKeyShare
  {
    var stem := x.signerID + x.publicKeyShare;
    assert SignerLeaf(x) == stem + StatusBytes(Active);
  }

  lemma SecondFrom(a: Enrollment, leaf: Bytes) returns (x: Enrollment)
    requires a.signerID != [] && a.status == Active
    requires EndsWith(leaf, StatusBytes(Active)) && Before(a.signerID, Stem(leaf))
    ensures SecondWithLeaf(a, x, leaf)
  {
    x := SignerWithLeaf(leaf, Active);
  }

  /** A signer that can be enrolled after `a` and has this leaf exists exactly if the leaf ends
      with "active" and what precedes that comes after the ID of `a`. */
  lemma NewcomerWithLeafIff(a: Enrollment, leaf: Bytes)
    requires a.signerID != [] && a.status == Active
    ensures (exists x :: SecondWithLeaf(a, x, leaf)) <==>
            EndsWith(leaf, StatusBytes(Active)) && Before(a.signerID, Stem(leaf))
  {
    if x :| SecondWithLeaf(a, x, leaf) {
      SecondPrecedes(a, x, leaf);
    }
    if EndsWith(leaf, StatusBytes(Active)) && Before(a.signerID, Stem(leaf)) {
      var x := SecondFrom(a, leaf);
      assert SecondWithLeaf(a, x, leaf);
    }
  }

  /** Enrolling `a` and x gives the root that enrolling `a`, b and d gives. */
  ghost predicate StandsIn(h: Sha, config: ThresholdConfig, a: Enrollment, x: Enrollment, b: Enrollment,
                           d: Enrollment)
  {
    Newcomers([a, x]) && StateRoot(h, Enrolled(config, [a, x])) == StateRoot(h, Enrolled(config, [a, b, d]))
  }

  /** Three enrolled signers share their root with two, for some second signer, exactly if the
      inner node over the last two ends with "active" and the rest of it comes after the first
      ID; for other nodes every such second signer exhibits a collision. */
  lemma TwoStandForThreeIff(h: Sha, config: ThresholdConfig, a: Enrollment, b: Enrollment, d: Enrollment)
    requires Newcomers([a, b, d])
    ensures var node := Join(h(SignerLeaf(b)), h(SignerLeaf(d)));
            if EndsWith(node, StatusBytes(Active)) && Before(a.signerID, Stem(node))
            then exists x :: StandsIn(h, config, a, x, b, d)
            else forall x :: StandsIn(h, config, a, x, b, d) ==>
                   GenuineCollision(h, LeafInputs(Enrolled(config, [a, x])), LeafInputs(Enrolled(config, [a, b, d])))
  {
    var node := Join(h(SignerLeaf(b)), h(SignerLeaf(d)));
    assert [a, b, d][0] == a;
    if EndsWith(node, StatusBytes(Active)) && Before(a.signerID, Stem(node)) {
      var x := SecondFrom(a, node);
      TwoAgainstThreeSigners(h, config, a, x, b, d);
      assert StandsIn(h, config, a, x, b, d);
    } else {
      forall x | StandsIn(h, config, a, x, b, d)
        ensures GenuineCollision(h, LeafInputs(Enrolled(config, [a, x])), LeafInputs(Enrolled(config, [a, b, d])))
      {
        TwoAgainstThreeSigners(h, config, a, x, b, d);
        if SignerLeaf(x) == node {
          SecondPrecedes(a, x, node);
        }
      }
    }
  }

  lemma FirstOfAll(b: Bytes)
    requires |b| > 1
    ensures Before([0], b)
  {
    assert [0][1..] == [];
  }

  /** With the first ID [0] the last digest alone decides: it need only end with "active". */
  lemma TwoStandForThree(h: Sha, config: ThresholdConfig, a: Enrollment, b: Enrollment, d: Enrollment)
    requires Newcomers([a, b, d]) && a.signerID == [0]
    requires EndsWith(h(SignerLeaf(d)), StatusBytes(Active))
    ensures exists x :: StandsIn(h, config, a, x, b, d)
  {
    var node := Join(h(SignerLeaf(b)), h(SignerLeaf(d)));
    assert node[32..] == h(SignerLeaf(d));
    assert node[|node| - 6..] == h(SignerLeaf(d))[26..];
    assert |Stem(node)| == 58;
    FirstOfAll(Stem(node));
    TwoStandForThreeIff(h, config, a, b, d);
  }

  /** Every accepted suspend, reactivate or revoke changes the root, or exhibits a collision. */
  lemma StatusChangeChangesRoot(h: Sha, p: Policy, op: Operation)
    requires !op.Enroll? && Refusal(p, op).None?
    ensures StateRoot(h, Apply(p, op)) != StateRoot(h, p) ||
            var (x, y) := RootDivergence(h, p, Apply(p, op));
            Collide(h, x, y) && x in HashedInputs(h, LeafInputs(p))
            && y in HashedInputs(h, LeafInputs(Apply(p, op)))
  {
    StatusChangeVisible(p, op);
    StateRootBinds(h, p, Apply(p, op));
  }

  lemma StatusChangeKeepsIds(p: Policy, op: Operation)
    requires !op.Enroll? && Refusal(p, op).None?
    ensures Apply(p, op).signers.Keys == p.signers.Keys && |Apply(p, op).signers| == |p.signers|
    ensures Apply(p, op).signers[op.signerID].status != p.signers[op.signerID].status
  {
    var q := Apply(p, op);
    assert q.signers.Keys == p.signers.Keys;
    assert |q.signers.Keys| == |q.signers| && |p.signers.Keys| == |p.signers|;
  }

  lemma StatusChangeVisible(p: Policy, op: Operation)
    requires !op.Enroll? && Refusal(p, op).None?
    ensures |Apply(p, op).signers| == |p.signers| && !SameCommitted(p, Apply(p, op))
  {
    var q, id := Apply(p, op), op.signerID;
    StatusChangeKeepsIds(p, op);
    SortedIdsMembers(p.signers.Keys);
    var ids := SortedIds(p.signers.Keys);
    var i :| 0 <= i < |ids| && ids[i] == id;
    assert !SameAt(p, ids[i], q, ids[i]);
  }

  lemma RunTwo(p: Policy, a: Operation, b: Operation) returns (q: Policy)
    ensures q == RunOps(p, [a, b]) == Apply(Apply(p, a), b)
    ensures Refusal(p, a).None? && Refusal(Apply(p, a), b).None? ==> Successes(p, [a, b]) == 2
  {
    assert [a, b][1..] == [b] && [b][1..] == [];
    q := Apply(Apply(p, a), b);
    assert RunOps(Apply(p, a), [b]) == q;
    assert Refusal(Apply(p, a), b).None? ==> Successes(Apply(p, a), [b]) == 1;
  }

  lemma SameSignersSameRoot(h: Sha, p: Policy, q: Policy)
    requires p.signers == q.signers && p.config == q.config
    ensures StateRoot(h, p) == StateRoot(h, q)
  {
    assert LeafInputs(p) == LeafInputs(q);
  }

  lemma SuspendThenReactivate(p: Policy, id: Bytes)
    requires Refusal(p, Suspend(id)).None?
    ensures var a := Apply(p, Suspend(id));
            && Refusal(a, Reactivate(id)).None?
            && Apply(a, Reactivate(id)) == p.(version := NextVersion(NextVersion(p.version)))
  {
    var q := Apply(Apply(p, Suspend(id)), Reactivate(id));
    assert q.signers == p.signers;
  }

  /** Suspending and reactivating a signer restores the root, two versions later. */
  lemma SuspendReactivateRestores(h: Sha, p: Policy, id: Bytes)
    requires Refusal(p, Suspend(id)).None?
    ensures var ops := [Suspend(id), Reactivate(id)];
            var q := RunOps(p, ops);
            && Successes(p, ops) == 2
            && q.signers == p.signers && StateRoot(h, q) == StateRoot(h, p)
            && q.version == NextVersion(NextVersion(p.version))
  {
    SuspendThenReactivate(p, id);
    var q := RunTwo(p, Suspend(id), Reactivate(id));
    SameSignersSameRoot(h, p, q);
  }

  /** Records taken at two moments of one run, after `a` and after `a + b`, that carry one
      version carry one root: a stretch that leaves the version alone leaves everything alone. */
  lemma SameVersionSameRoot(h: Sha, p: Policy, a: seq<Operation>, b: seq<Operation>)
    requires p.version + Successes(p, a + b) < TWO_64
    requires RunOps(p, a).version == RunOps(p, a + b).version
    ensures RunOps(p, a) == RunOps(p, a + b)
    ensures StateRoot(h, RunOps(p, a)) == StateRoot(h, RunOps(p, a + b))
  {
    RunOpsAppend(p, a, b);
    VersionCountsSuccesses(p, a);
    VersionCountsSuccesses(p, a + b);
    NoSuccessNoChange(RunOps(p, a), b);
  }

  ghost function StateRecord(h: Sha, p: Policy, now: Timestamp): Record {
    Record(p.version, StateRoot(h, p), now, [])
  }

  /** A record created after any run is numbered by its successes, carries the root of the state
      then, and the time given, and no signatures. */
  lemma CreatedRecordNumbered(h: Sha, p: Policy, ops: seq<Operation>, now: Timestamp)
    ensures var r := StateRecord(h, RunOps(p, ops), now);
            && r.version == (p.version + Successes(p, ops)) % 0x1_0000_0000_0000_0000
            && r.stateRoot == StateRoot(h, RunOps(p, ops))
            && r.timestamp == now && r.quorumSignatures == []
  {
    VersionCountsModulo(p, ops);
  }

  /** Records created at two moments of one run that carry one version carry one root. */
  lemma CreatedRecordsAgree(h: Sha, p: Policy, a: seq<Operation>, b: seq<Operation>, now: Timestamp, later: Timestamp)
    requires p.version + Successes(p, a + b) < TWO_64
    ensures var r, r' := StateRecord(h, RunOps(p, a), now), StateRecord(h, RunOps(p, a + b), later);
            && r.version <= r'.version
            && (r.version == r'.version ==> r.stateRoot == r'.stateRoot && Successes(RunOps(p, a), b) == 0)
  {
    RunOpsAppend(p, a, b);
    VersionCountsSuccesses(p, a);
    VersionCountsSuccesses(p, a + b);
    if RunOps(p, a).version == RunOps(p, a + b).version {
      SameVersionSameRoot(h, p, a, b);
    }
  }
}
