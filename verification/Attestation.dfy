/** The attestation verifier and its chain of checks (attestation/verifier.go). */
module Attestation {
  import opened Basics

  /** Certificates are opaque; X.509 path validation is a parameter. */
  type Cert = Bytes

  /** (leaf, trusted roots, intermediates, time) to verdict. */
  type PathValidation = (Cert, set<Cert>, set<Cert>, int) -> bool

  datatype PCRIndex = PCR(register: int)

  type PCRSet = map<PCRIndex, Bytes>

  datatype Document = Document(nonce: Bytes, pcrs: PCRSet, timestamp: int, certChain: seq<Cert>)

  datatype RejectCode =
    | RejectNone | RejectMalformed | RejectNonceInvalid
    | RejectExpired | RejectChainInvalid | RejectPCRMismatch

  datatype VerifierPolicy = VerifierPolicy(pathOk: PathValidation, expectedPCRs: PCRSet, roots: set<Cert>,
                                           nonceLength: int, maxAge: int)

  predicate NonceOk(v: VerifierPolicy, docNonce: Bytes, expected: Bytes) {
    |expected| == v.nonceLength && docNonce == expected
  }

  /** At most a minute in the future, at most maxAge old. */
  predicate TimestampOk(v: VerifierPolicy, timestamp: int, now: int) {
    now - v.maxAge <= timestamp <= now + MINUTE
  }

  predicate ChainOk(v: VerifierPolicy, chain: seq<Cert>, now: int) {
    chain != [] && v.pathOk(chain[0], v.roots, Elements(chain[1..]), now)
  }

  /** Every expected measurement is present and equal; others are ignored. */
  predicate PCRsOk(v: VerifierPolicy, pcrs: PCRSet) {
    forall i :: i in v.expectedPCRs ==> i in pcrs && pcrs[i] == v.expectedPCRs[i]
  }

  /** The document passes every check. */
  predicate Passes(v: VerifierPolicy, doc: Document, nonce: Bytes, now: int) {
    && NonceOk(v, doc.nonce, nonce)
    && TimestampOk(v, doc.timestamp, now)
    && ChainOk(v, doc.certChain, now)
    && PCRsOk(v, doc.pcrs)
  }

  /** The first check that fails names the rejection. */
  function FirstFailure(v: VerifierPolicy, doc: Option<Document>, nonce: Bytes, now: int): (code: RejectCode)
    ensures code == RejectNone <==> doc.Some? && Passes(v, doc.value, nonce, now)
  {
    match doc
    case None => RejectMalformed
    case Some(d) =>
      if !NonceOk(v, d.nonce, nonce) then RejectNonceInvalid
      else if !TimestampOk(v, d.timestamp, now) then RejectExpired
      else if !ChainOk(v, d.certChain, now) then RejectChainInvalid
      else if !PCRsOk(v, d.pcrs) then RejectPCRMismatch
      else RejectNone
  }

  class Verifier {
    const policy: VerifierPolicy

    constructor (policy: VerifierPolicy)
      ensures this.policy == policy
    {
      this.policy := policy;
    }

    method VerifyNonce(docNonce: Bytes, expectedNonce: Bytes) returns (ok: bool)
      ensures ok == NonceOk(policy, docNonce, expectedNonce)
    {
      if |expectedNonce| != policy.nonceLength {
        return false;
      }
      return docNonce == expectedNonce;
    }

    method VerifyTimestamp(attestTime: int, now: int) returns (ok: bool)
      ensures ok == TimestampOk(policy, attestTime, now)
    {
      var age := now - attestTime;
      if age < -(MINUTE as int) {
        return false;
      }
      if age > policy.maxAge {
        return false;
      }
      return true;
    }

    /** Builds the intermediate pool in a loop, then validates the path from the first certificate. */
    method VerifyCertChain(chain: seq<Cert>, now: int) returns (ok: bool)
      ensures ok == ChainOk(policy, chain, now)
    {
      if |chain| == 0 {
        return false;
      }
      var intermediates: set<Cert> := {};
      var i := 1;
      while i < |chain|
        invariant 1 <= i <= |chain|
        invariant intermediates == Elements(chain[1..i])
      {
        assert chain[1..i + 1] == chain[1..i] + [chain[i]];
        intermediates := intermediates + {chain[i]};
        i := i + 1;
      }
      assert chain[1..i] == chain[1..];
      return policy.pathOk(chain[0], policy.roots, intermediates, now);
    }

    /** Ranges over the expected measurements in an arbitrary order, stopping at a mismatch. */
    method VerifyPCRs(docPCRs: PCRSet) returns (ok: bool)
      ensures ok == PCRsOk(policy, docPCRs)
    {
      var pending := policy.expectedPCRs.Keys;
      while pending != {}
        invariant pending <= policy.expectedPCRs.Keys
        invariant forall i :: i in policy.expectedPCRs && i !in pending ==>
                    i in docPCRs && docPCRs[i] == policy.expectedPCRs[i]
        decreases pending
      {
        var idx :| idx in pending;
        pending := pending - {idx};
        if idx !in docPCRs {
          return false;
        }
        if docPCRs[idx] != policy.expectedPCRs[idx] {
          return false;
        }
      }
      return true;
    }

    method Verify(doc: Option<Document>, expectedNonce: Bytes, now: int) returns (code: RejectCode)
      ensures code == FirstFailure(policy, doc, expectedNonce, now)
    {
      if doc.None? {
        return RejectMalformed;
      }
      var d := doc.value;
      var ok := VerifyNonce(d.nonce, expectedNonce);
      if !ok {
        return RejectNonceInvalid;
      }
      ok := VerifyTimestamp(d.timestamp, now);
      if !ok {
        return RejectExpired;
      }
      ok := VerifyCertChain(d.certChain, now);
      if !ok {
        return RejectChainInvalid;
      }
      ok := VerifyPCRs(d.pcrs);
      if !ok {
        return RejectPCRMismatch;
      }
      return RejectNone;
    }
  }

  datatype VerifierError = PCRsRequired | RootsRequired

  /** The nonce length and the maximum age that a verifier checks. */
  datatype NonceSpec = NonceSpec(length: int, maxAge: int)

  /** 32 bytes and five minutes. */
  const DEFAULT_NONCE_SPEC: NonceSpec := NonceSpec(32, 5 * MINUTE)

  function SpecOrDefault(spec: Option<NonceSpec>): NonceSpec {
    match spec
    case Some(given) => given
    case None => DEFAULT_NONCE_SPEC
  }

  /** `roots` and `spec` may be absent, as a nil pool and a nil specification are. */
  method NewVerifier(pathOk: PathValidation, expectedPCRs: PCRSet, roots: Option<set<Cert>>, spec: Option<NonceSpec>)
      returns (r: Result<Verifier, VerifierError>)
    ensures r.Ok? <==> expectedPCRs != map[] && roots.Some?
    ensures expectedPCRs == map[] ==> r == Err(PCRsRequired)
    ensures r.Ok? ==>
              var n := SpecOrDefault(spec);
              && fresh(r.value)
              && r.value.policy == VerifierPolicy(pathOk, expectedPCRs, roots.value, n.length, n.maxAge)
    ensures r.Ok? && spec.None? ==> r.value.policy.nonceLength == 32 && r.value.policy.maxAge == 300_000_000_000
    ensures r == Err(RootsRequired) <==> expectedPCRs != map[] && roots.None?
  {
    if |expectedPCRs| == 0 {
      return Err(PCRsRequired);
    }
    if roots.None? {
      return Err(RootsRequired);
    }
    var nonceSpec := DEFAULT_NONCE_SPEC;
    if spec.Some? {
      nonceSpec := spec.value;
    }
    var v := new Verifier(VerifierPolicy(pathOk, expectedPCRs, roots.value, nonceSpec.length, nonceSpec.maxAge));
    return Ok(v);
  }

  /** Neither order nor repetition of intermediates, nor extra measurements, change the verdict. */
  lemma VerdictIgnoresExtras(v: VerifierPolicy, d: Document, e: Document, nonce: Bytes, now: int)
    requires d.nonce == e.nonce && d.timestamp == e.timestamp
    requires d.certChain != [] && e.certChain != [] && d.certChain[0] == e.certChain[0]
    requires forall c :: c in d.certChain[1..] <==> c in e.certChain[1..]
    requires forall i :: i in v.expectedPCRs && i in d.pcrs ==> i in e.pcrs && e.pcrs[i] == d.pcrs[i]
    ensures Passes(v, d, nonce, now) ==> Passes(v, e, nonce, now)
  {
    assert Elements(d.certChain[1..]) == Elements(e.certChain[1..]);
  }

  // ---- What each verdict means ----

  /** The nonce that was asked for has the right length, and the document repeats it. */
  predicate Fresh(v: VerifierPolicy, d: Document, nonce: Bytes) {
    |nonce| == v.nonceLength && |d.nonce| == |nonce| && forall i :: 0 <= i < |nonce| ==> d.nonce[i] == nonce[i]
  }

  /** Neither older than the maximum age nor more than 60 seconds in the future. */
  predicate InWindow(v: VerifierPolicy, d: Document, now: int) {
    now - d.timestamp <= v.maxAge && d.timestamp - now <= 60_000_000_000
  }

  /** A path from the first certificate, through any of the others, to a root is validated. */
  predicate Chained(v: VerifierPolicy, d: Document, now: int) {
    |d.certChain| > 0
    && v.pathOk(d.certChain[0], v.roots, set i | 1 <= i < |d.certChain| :: d.certChain[i], now)
  }

  /** The register is reported with the expected measurement. */
  predicate Measured(v: VerifierPolicy, d: Document, i: PCRIndex)
    requires i in v.expectedPCRs
  {
    i in d.pcrs && d.pcrs[i] == v.expectedPCRs[i]
  }

  predicate AllMeasured(v: VerifierPolicy, d: Document) {
    forall i :: i in v.expectedPCRs ==> Measured(v, d, i)
  }

  lemma ChecksMean(v: VerifierPolicy, d: Document, nonce: Bytes, now: int)
    ensures NonceOk(v, d.nonce, nonce) <==> Fresh(v, d, nonce)
    ensures TimestampOk(v, d.timestamp, now) <==> InWindow(v, d, now)
    ensures ChainOk(v, d.certChain, now) <==> Chained(v, d, now)
    ensures PCRsOk(v, d.pcrs) <==> AllMeasured(v, d)
  {
    if Fresh(v, d, nonce) {
      assert d.nonce == nonce;
    }
    if d.certChain != [] {
      var rest := d.certChain[1..];
      assert forall i :: 1 <= i < |d.certChain| ==> d.certChain[i] == rest[i - 1];
      assert Elements(rest) == set i | 1 <= i < |d.certChain| :: d.certChain[i];
    }
    if PCRsOk(v, d.pcrs) {
      assert forall i :: i in v.expectedPCRs ==> Measured(v, d, i);
    }
    if AllMeasured(v, d) {
      forall i | i in v.expectedPCRs ensures i in d.pcrs && d.pcrs[i] == v.expectedPCRs[i] {
        assert Measured(v, d, i);
      }
    }
  }

  /** The first thing wrong with a document decides its rejection. */
  lemma VerdictMeans(v: VerifierPolicy, d: Document, nonce: Bytes, now: int)
    ensures var code := FirstFailure(v, Some(d), nonce, now);
            && (code == RejectNonceInvalid <==> !Fresh(v, d, nonce))
            && (code == RejectExpired <==> Fresh(v, d, nonce) && !InWindow(v, d, now))
            && (code == RejectChainInvalid <==> Fresh(v, d, nonce) && InWindow(v, d, now) && !Chained(v, d, now))
            && (code == RejectPCRMismatch <==>
                Fresh(v, d, nonce) && InWindow(v, d, now) && Chained(v, d, now) && !AllMeasured(v, d))
            && (code == RejectNone <==>
                Fresh(v, d, nonce) && InWindow(v, d, now) && Chained(v, d, now) && AllMeasured(v, d))
    ensures FirstFailure(v, None, nonce, now) == RejectMalformed
  {
    ChecksMean(v, d, nonce, now);
  }

  /** Changing or removing any one expected register of an accepted document has it rejected
      for that. */
  lemma TamperedRegisterRejected(v: VerifierPolicy, d: Document, nonce: Bytes, now: int, i: PCRIndex, x: Bytes)
    requires FirstFailure(v, Some(d), nonce, now) == RejectNone
    requires i in v.expectedPCRs && x != v.expectedPCRs[i]
    ensures FirstFailure(v, Some(d.(pcrs := d.pcrs[i := x])), nonce, now) == RejectPCRMismatch
    ensures FirstFailure(v, Some(d.(pcrs := d.pcrs - {i})), nonce, now) == RejectPCRMismatch
  {
    var changed, removed := d.(pcrs := d.pcrs[i := x]), d.(pcrs := d.pcrs - {i});
    VerdictMeans(v, changed, nonce, now);
    VerdictMeans(v, removed, nonce, now);
    VerdictMeans(v, d, nonce, now);
    assert !Measured(v, changed, i) && !Measured(v, removed, i);
  }

  /** Any other nonce, any instant outside the window, and an empty chain are fatal as well. */
  lemma TamperedRestRejected(v: VerifierPolicy, d: Document, nonce: Bytes, now: int, x: Bytes, t: int)
    requires FirstFailure(v, Some(d), nonce, now) == RejectNone
    ensures x != nonce ==> FirstFailure(v, Some(d.(nonce := x)), nonce, now) == RejectNonceInvalid
    ensures FirstFailure(v, Some(d.(timestamp := t)), nonce, now) ==
            if now - v.maxAge <= t <= now + 60_000_000_000 then RejectNone else RejectExpired
    ensures FirstFailure(v, Some(d.(certChain := [])), nonce, now) == RejectChainInvalid
  {
    VerdictMeans(v, d, nonce, now);
  }
}
