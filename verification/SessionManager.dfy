/** The mutable session manager (session/manager.go) against the table operations. */
module SessionManagers {
  import opened Basics
  import opened Strings
  import opened Attestation
  import opened PayloadKeys
  import opened Sessions
  import opened SessionOps
  import Nonces
  import PolicyState
  import StateManagers

  class Session {
    const id: Bytes
    const threshold: int
    const payloadHash: Digest
    const createdAt: int
    const expiresAt: int
    var status: Status
    var participants: seq<Participant>
    var attestations: map<Bytes, Document>

    constructor (id: Bytes, participants: seq<Participant>, threshold: int, payloadHash: Digest, now: int, timeout: int)
      ensures Value() == SessionValue(id, SessionAttesting, participants, threshold, payloadHash,
                                      now, now + timeout, map[])
    {
      this.id := id;
      this.status := SessionAttesting;
      this.participants := participants;
      this.threshold := threshold;
      this.payloadHash := payloadHash;
      this.createdAt := now;
      this.expiresAt := now + timeout;
      this.attestations := map[];
    }

    function Value(): SessionValue
      reads this
    {
      SessionValue(id, status, participants, threshold, payloadHash, createdAt, expiresAt, attestations)
    }

    /** The find-first loop. */
    method FindParticipant(signerID: Bytes) returns (i: nat)
      ensures i == Position(participants, signerID)
    {
      i := 0;
      while i < |participants|
        invariant i <= |participants|
        invariant forall j :: 0 <= j < i ==> participants[j].signerID != signerID
      {
        if participants[i].signerID == signerID {
          break;
        }
        i := i + 1;
      }
      PositionUnique(participants, signerID, i);
    }

    /** The counting loop. */
    method CountFlag(f: Flag) returns (count: nat)
      ensures count == Count(participants, f)
    {
      count := 0;
      var i := 0;
      while i < |participants|
        invariant 0 <= i <= |participants|
        invariant count == Count(participants[..i], f)
      {
        assert participants[..i + 1][..i] == participants[..i];
        if Has(participants[i], f) {
          count := count + 1;
        }
        i := i + 1;
      }
      assert participants[..i] == participants;
    }

    method MaybeAdvance()
      modifies this`status
      ensures Value() == SessionOps.MaybeAdvance(old(Value()))
    {
      if status != SessionAttesting {
        return;
      }
      var attestedCount := CountFlag(Attested);
      if attestedCount >= threshold {
        status := SessionCommit;
      }
    }

    /** Stores an accepted attestation. */
    method RecordAttestation(signerID: Bytes, doc: Document, i: nat, now: int)
      requires i == Position(participants, signerID) < |participants|
      modifies this
      ensures Value() == Attest(old(Value()), signerID, doc, now)
    {
      attestations := attestations[signerID := doc];
      participants := participants[i := participants[i].(attested := true, attestationTime := now)];
      MaybeAdvance();
    }

    /** Common body of RecordCommitment and RecordShare once the session has been looked up. */
    method RecordFlag(signerID: Bytes, f: Flag) returns (answer: Answer)
      requires f != Attested
      modifies this
      ensures answer == (var s := old(Value()); var i := Position(s.participants, signerID);
                if s.status != PhaseFor(f) then Err(ErrWrongPhase)
                else if i < |s.participants| && !s.participants[i].attested then Err(ErrAttestationRequired)
                else DONE)
      ensures Value() == if answer.Ok? then RecordOn(old(Value()), signerID, f) else old(Value())
    {
      if status != PhaseFor(f) {
        return Err(ErrWrongPhase);
      }
      var i := FindParticipant(signerID);
      if i < |participants| {
        if !participants[i].attested {
          return Err(ErrAttestationRequired);
        }
        participants := participants[i := Raise(participants[i], f, 0)];
      }
      var count := CountFlag(f);
      if count >= threshold {
        status := PhaseAfter(f);
      }
      return DONE;
    }
  }

  /** Removing the keys of the sessions that are gone leaves the entries of the others. */
  lemma IndexWithout(index: map<Bytes, Bytes>, keys: seq<Bytes>, gone: set<Bytes>)
    requires forall k :: k in keys <==> k in index && index[k] in gone
    ensures index - Elements(keys) == map k | k in index && index[k] !in gone :: index[k]
  {
  }

  class Manager {
    const sha: Sha
    const timeout: int
    const verifier: Verifier
    const nonceManager: Nonces.NonceManager
    const policyState: StateManagers.StateManager
    var sessions: map<Bytes, Session>
    var requestIndex: map<Bytes, Bytes>
    var sessionsByPayload: map<Bytes, Bytes>

    ghost function Value(): Table
      reads this, sessions.Values
    {
      Table(map id | id in sessions :: sessions[id].Value(), requestIndex, sessionsByPayload)
    }

    ghost function Rules(): SessionOps.Rules {
      SessionOps.Rules(sha, verifier.policy, nonceManager.maxAge, timeout)
    }

    /** Sessions are filed under their own IDs, so no object appears twice. */
    ghost predicate Keyed()
      reads this
    {
      forall id :: id in sessions ==> sessions[id].id == id
    }

    /** What every call keeps: in particular, the indexes agree with the sessions. */
    ghost predicate Valid()
      reads this, sessions.Values, policyState
    {
      && Keyed()
      && Indexed(sha, Value())
      && policyState.Valid()
    }

    constructor (sha: Sha, timeout: int, verifier: Verifier, nonceManager: Nonces.NonceManager,
                 policyState: StateManagers.StateManager)
      requires policyState.Valid()
      ensures Valid() && Value() == Table(map[], map[], map[])
      ensures Rules() == SessionOps.Rules(sha, verifier.policy, nonceManager.maxAge, timeout)
      ensures this.nonceManager == nonceManager && this.policyState == policyState && sessions == map[]
    {
      this.sha := sha;
      this.timeout := timeout;
      this.verifier := verifier;
      this.nonceManager := nonceManager;
      this.policyState := policyState;
      this.sessions := map[];
      this.requestIndex := map[];
      this.sessionsByPayload := map[];
    }

    /** The check of the required signers, in request order. */
    method CheckRequired(required: seq<Bytes>) returns (refusal: Option<SessionError>)
      requires policyState.Valid()
      ensures refusal == SelectionRefusal(policyState.Value(), required)
    {
      var i := 0;
      while i < |required|
        invariant 0 <= i <= |required|
        invariant var p := policyState.Value();
                  SelectionRefusal(p, required) == SelectionRefusal(p, required[i..])
      {
        assert required[i..][1..] == required[i + 1..];
        if required[i] !in policyState.enrolledSigners {
          return Some(ErrSignerNotEnrolled);
        }
        if policyState.enrolledSigners[required[i]].status != PolicyState.Active {
          return Some(ErrSignerNotActive);
        }
        i := i + 1;
      }
      return None;
    }

    method SelectParticipants(req: Request) returns (r: Selection)
      requires policyState.Valid()
      ensures SelectsFrom(policyState.Value(), req, r)
    {
      ghost var listing := SomeListing(policyState.Value().ActiveIds());
      if |req.requiredSigners| > 0 {
        var refusal := CheckRequired(req.requiredSigners);
        r := if refusal.Some? then Err(refusal.value) else Ok(NewParticipants(req.requiredSigners));
      } else {
        var active := policyState.GetActiveSigners();
        r, listing := Ok(NewParticipants(active)), active;
      }
      assert r == Selected(policyState.Value(), req, listing);
    }

    /** `drawn` is the session ID the random source yields, or its failure. If it is in the
        table already, which no call checks, the session it names is replaced and the indexes
        may cease to agree. */
    method CreateSession(req: Request, drawn: Option<Bytes>, now: int)
        returns (r: Result<Session, SessionError>, ghost listing: seq<Bytes>)
      requires Valid()
      modifies this
      ensures (drawn.Some? ==> drawn.value !in old(sessions)) ==> Valid()
      ensures Lists(listing, old(policyState.Value()).ActiveIds())
      ensures Value() == CreateIn(Rules(), old(Value()), old(policyState.Value()), req, listing, drawn, now)
      ensures match CreateAnswer(Rules(), old(Value()), old(policyState.Value()), req, listing, drawn)
              case Ok(id) => r.Ok? && id in sessions && r.value == sessions[id]
              case Err(e) => r == Err(e)
      ensures forall id :: id in sessions ==>
                (id in old(sessions) && sessions[id] == old(sessions[id])) || fresh(sessions[id])
    {
      ghost var t, p := Value(), policyState.Value();
      listing := SomeListing(p.ActiveIds());
      if req.requestID in requestIndex && requestIndex[req.requestID] in sessions {
        return Ok(sessions[requestIndex[req.requestID]]), listing;
      }
      r, listing := SelectAndOpen(req, drawn, now);
      if drawn.None? || drawn.value !in t.sessions {
        CreateKeepsIndex(Rules(), t, p, req, listing, drawn, now);
      }
    }

    /** CreateSession for a request ID that is not bound to a session. */
    method SelectAndOpen(req: Request, drawn: Option<Bytes>, now: int)
        returns (r: Result<Session, SessionError>, ghost listing: seq<Bytes>)
      requires Keyed() && policyState.Valid() && Bound(Value(), req.requestID).None?
      modifies this`sessions, this`requestIndex, this`sessionsByPayload
      ensures Keyed()
      ensures Lists(listing, old(policyState.Value()).ActiveIds())
      ensures Value() == CreateIn(Rules(), old(Value()), old(policyState.Value()), req, listing, drawn, now)
      ensures match CreateAnswer(Rules(), old(Value()), old(policyState.Value()), req, listing, drawn)
              case Ok(id) => r.Ok? && id in sessions && r.value == sessions[id]
              case Err(e) => r == Err(e)
      ensures forall id :: id in sessions ==>
                (id in old(sessions) && sessions[id] == old(sessions[id])) || fresh(sessions[id])
    {
      ghost var t, p := Value(), policyState.Value();
      var participants := SelectParticipants(req);
      listing :| Lists(listing, p.ActiveIds()) && participants == Selected(p, req, listing);
      if participants.Err? {
        return Err(participants.error), listing;
      }
      assert Value() == t;
      r := OpenFor(req, participants.value, SelectedIds(req, listing), drawn, now);
    }

    /** CreateSession once the participants have been selected. */
    method OpenFor(req: Request, participants: seq<Participant>, ghost ids: seq<Bytes>, drawn: Option<Bytes>, now: int)
        returns (r: Result<Session, SessionError>)
      requires Keyed() && participants == NewParticipants(ids)
      modifies this`sessions, this`requestIndex, this`sessionsByPayload
      ensures Keyed()
      ensures var key, threshold := RequestKey(Rules(), req, ids), policyState.thresholdConfig.threshold;
              && Value() == OpenIn(Rules(), old(Value()), threshold, req, ids, key, drawn, now)
              && match OpenAnswer(old(Value()), threshold, ids, key, drawn)
                 case Ok(id) => r.Ok? && id in sessions && r.value == sessions[id]
                 case Err(e) => r == Err(e)
      ensures forall id :: id in sessions ==>
                (id in old(sessions) && sessions[id] == old(sessions[id])) || fresh(sessions[id])
    {
      var payloadKey := KeyOfParticipants(req, participants, ids);
      assert Value() == old(Value());
      r := OpenSession(req, participants, ids, payloadKey, drawn, now);
    }

    method KeyOfParticipants(req: Request, participants: seq<Participant>, ghost ids: seq<Bytes>) returns (key: Bytes)
      requires participants == NewParticipants(ids)
      ensures key == RequestKey(Rules(), req, ids)
    {
      assert ParticipantIds(participants) == ids;
      key := ComputePayloadKey(sha, req.payloadHash, ParticipantIds(participants));
    }

    /** CreateSession once the participants have been selected and keyed. */
    method OpenSession(req: Request, participants: seq<Participant>, ghost ids: seq<Bytes>, payloadKey: Bytes,
                       drawn: Option<Bytes>, now: int)
        returns (r: Result<Session, SessionError>)
      requires Keyed() && participants == NewParticipants(ids)
      modifies this`sessions, this`requestIndex, this`sessionsByPayload
      ensures var threshold := policyState.thresholdConfig.threshold;
              Value() == OpenIn(Rules(), old(Value()), threshold, req, ids, payloadKey, drawn, now)
      ensures match OpenAnswer(old(Value()), policyState.thresholdConfig.threshold, ids, payloadKey, drawn)
              case Ok(id) => r.Ok? && id in sessions && r.value == sessions[id]
              case Err(e) => r == Err(e)
      ensures Keyed()
      ensures forall id :: id in sessions ==>
                (id in old(sessions) && sessions[id] == old(sessions[id])) || fresh(sessions[id])
    {
      if |participants| < policyState.thresholdConfig.threshold {
        return Err(ErrInsufficientSigners);
      }
      var existing := InFlightUnder(payloadKey);
      if existing.Some? {
        requestIndex := requestIndex[req.requestID := existing.value.id];
        RowsKept();
        return Ok(existing.value);
      }
      if drawn.None? {
        return Err(ErrRandomSource);
      }
      var session := AddSession(drawn.value, participants, req, payloadKey, now);
      return Ok(session);
    }

    /** The session an in-flight payload key leads to. */
    method InFlightUnder(payloadKey: Bytes) returns (existing: Option<Session>)
      ensures match Reusable(Value(), payloadKey)
              case Some(id) => existing.Some? && id in sessions && existing.value == sessions[id]
              case None => existing.None?
    {
      if payloadKey in sessionsByPayload && sessionsByPayload[payloadKey] in sessions {
        var session := sessions[sessionsByPayload[payloadKey]];
        if session.status != SessionExpired && session.status != SessionFailed {
          return Some(session);
        }
      }
      return None;
    }

    /** Binding a request ID changes no row. */
    twostate lemma RowsKept()
      requires sessions == old(sessions)
      requires forall id :: id in sessions ==> sessions[id].Value() == old(sessions[id].Value())
      ensures Value().sessions == old(Value()).sessions
    {
    }

    /** Filing a session object adds or replaces one row of the table. */
    twostate lemma RowAdded(id: Bytes, new session: Session)
      requires sessions == old(sessions)[id := session]
      requires forall x :: x in old(sessions) && x != id ==> sessions[x].Value() == old(sessions[x].Value())
      ensures Value().sessions == old(Value()).sessions[id := session.Value()]
    {
    }

    /** The last part of CreateSession: a new session and its three index entries. */
    method AddSession(id: Bytes, participants: seq<Participant>, req: Request, payloadKey: Bytes, now: int)
        returns (session: Session)
      modifies this`sessions, this`requestIndex, this`sessionsByPayload
      ensures fresh(session) && session.id == id && sessions == old(sessions)[id := session]
      ensures var t := old(Value());
              var s := SessionValue(id, SessionAttesting, participants, policyState.thresholdConfig.threshold,
                                    req.payloadHash, now, now + timeout, map[]);
              Value() == Table(t.sessions[id := s], t.requestIndex[req.requestID := id], t.byPayload[payloadKey := id])
    {
      session := new Session(id, participants, policyState.thresholdConfig.threshold, req.payloadHash, now, timeout);
      sessions := sessions[id := session];
      requestIndex := requestIndex[req.requestID := id];
      sessionsByPayload := sessionsByPayload[payloadKey := id];
      RowAdded(id, session);
    }

    method GetSession(id: Bytes, now: int) returns (r: Result<Session, SessionError>)
      ensures match GetAnswer(Value(), id, now)
              case Ok(_) => id in sessions && r == Ok(sessions[id])
              case Err(e) => r == Err(e)
    {
      if id !in sessions {
        return Err(ErrSessionNotFound);
      }
      var session := sessions[id];
      if now > session.expiresAt {
        return Err(ErrSessionExpired);
      }
      return Ok(session);
    }

    method IssueChallenge(id: Bytes, signerID: Bytes, drawn: Option<Bytes>, now: int) returns (answer: Answer)
      requires drawn.Some? ==> |drawn.value| == nonceManager.length
      modifies nonceManager
      ensures answer == ChallengeAnswer(old(Value()), id, signerID, drawn, now)
      ensures Value() == old(Value())
      ensures nonceManager.issued == if answer.Ok? then Nonces.IssueIn(old(nonceManager.issued), answer.value, now)
                                     else old(nonceManager.issued)
    {
      var found := GetSession(id, now);
      if found.Err? {
        return Err(found.error);
      }
      var i := found.value.FindParticipant(signerID);
      if i == |found.value.participants| {
        return Err(ErrSignerNotEnrolled);
      }
      var nonce := nonceManager.Issue(drawn, now);
      if nonce.None? {
        return Err(ErrRandomSource);
      }
      return Ok(nonce.value);
    }

    /** The session object a call on `id` may write to. */
    ghost function Target(id: Bytes): set<Session>
      reads this
    {
      if id in sessions then {sessions[id]} else {}
    }

    /** Writing to one session object rewrites one table row. */
    twostate lemma OneRowChanged(id: Bytes)
      requires old(Keyed())
      requires id in sessions && unchanged(this)
      requires forall x :: x in sessions && x != id ==> sessions[x].Value() == old(sessions[x].Value())
      ensures Value() == old(Value()).(sessions := old(Value()).sessions[id := sessions[id].Value()])
    {
    }

    method SubmitAttestation(id: Bytes, signerID: Bytes, doc: Option<Document>, nonce: Bytes, now: int)
        returns (answer: Answer)
      requires Valid()
      modifies Target(id), nonceManager
      ensures Valid()
      ensures answer == SubmitAnswer(Rules(), old(Value()), old(nonceManager.issued), id, signerID, doc, nonce, now)
      ensures Value() == SubmitIn(Rules(), old(Value()), old(nonceManager.issued), id, signerID, doc, nonce, now)
      ensures nonceManager.issued ==
              SubmitNonces(Rules(), old(Value()), old(nonceManager.issued), id, signerID, nonce, now)
    {
      SubmitKeepsIndex(Rules(), Value(), nonceManager.issued, id, signerID, doc, nonce, now);
      if id !in sessions {
        return Err(ErrSessionNotFound);
      }
      var session := sessions[id];
      if now > session.expiresAt {
        session.status := SessionExpired;
        OneRowChanged(id);
        return Err(ErrSessionExpired);
      }
      var i := session.FindParticipant(signerID);
      if i == |session.participants| {
        return Err(ErrSignerNotEnrolled);
      }
      answer := SpendAndVerify(id, i, signerID, doc, nonce, now);
    }

    /** SubmitAttestation from the nonce on. */
    method SpendAndVerify(id: Bytes, i: nat, signerID: Bytes, doc: Option<Document>, nonce: Bytes, now: int)
        returns (answer: Answer)
      requires Keyed() && EntryRefusal(Value(), id, signerID, now).None?
      requires i == Position(sessions[id].participants, signerID)
      modifies Target(id), nonceManager
      ensures answer == SubmitAnswer(Rules(), old(Value()), old(nonceManager.issued), id, signerID, doc, nonce, now)
      ensures Value() == SubmitIn(Rules(), old(Value()), old(nonceManager.issued), id, signerID, doc, nonce, now)
      ensures nonceManager.issued == Nonces.ValidateIn(old(nonceManager.issued), nonceManager.maxAge, nonce, now)
    {
      var verdict := nonceManager.Validate(nonce, now);
      if verdict != Nonces.Accepted {
        return Err(ErrNonce(verdict));
      }
      var code := verifier.Verify(doc, nonce, now);
      if code != RejectNone {
        return Err(ErrRejected(code));
      }
      sessions[id].RecordAttestation(signerID, doc.value, i, now);
      OneRowChanged(id);
      return DONE;
    }

    /** RecordCommitment and RecordShare differ in the flag they set. */
    method RecordFlagOf(id: Bytes, signerID: Bytes, f: Flag) returns (answer: Answer)
      requires Keyed() && f != Attested
      modifies Target(id)
      ensures answer == RecordAnswer(old(Value()), id, signerID, f)
      ensures Value() == RecordIn(old(Value()), id, signerID, f)
    {
      if id !in sessions {
        return Err(ErrSessionNotFound);
      }
      answer := sessions[id].RecordFlag(signerID, f);
      OneRowChanged(id);
    }

    method RecordCommitment(id: Bytes, signerID: Bytes) returns (answer: Answer)
      requires Valid()
      modifies Target(id)
      ensures Valid()
      ensures answer == RecordAnswer(old(Value()), id, signerID, Committed)
      ensures Value() == RecordIn(old(Value()), id, signerID, Committed)
    {
      RecordKeepsIndex(sha, Value(), id, signerID, Committed);
      answer := RecordFlagOf(id, signerID, Committed);
    }

    method RecordShare(id: Bytes, signerID: Bytes) returns (answer: Answer)
      requires Valid()
      modifies Target(id)
      ensures Valid()
      ensures answer == RecordAnswer(old(Value()), id, signerID, Shared)
      ensures Value() == RecordIn(old(Value()), id, signerID, Shared)
    {
      RecordKeepsIndex(sha, Value(), id, signerID, Shared);
      answer := RecordFlagOf(id, signerID, Shared);
    }

    /** The inner loop of CleanupExpired: the first key found for a session, if any. */
    method FirstKeyOf(id: Bytes) returns (key: Option<Bytes>)
      ensures key.Some? ==> key.value in sessionsByPayload && sessionsByPayload[key.value] == id
      ensures key.None? ==> forall k :: k in sessionsByPayload ==> sessionsByPayload[k] != id
    {
      var pending := sessionsByPayload.Keys;
      while pending != {}
        invariant pending <= sessionsByPayload.Keys
        invariant forall k :: k in sessionsByPayload && k !in pending ==> sessionsByPayload[k] != id
        decreases pending
      {
        var k :| k in pending;
        pending := pending - {k};
        if sessionsByPayload[k] == id {
          return Some(k);
        }
      }
      return None;
    }

    method DeleteKeys(keys: seq<Bytes>)
      modifies this`sessionsByPayload
      ensures sessionsByPayload == old(sessionsByPayload) - Elements(keys)
    {
      var i := 0;
      while i < |keys|
        invariant 0 <= i <= |keys|
        invariant sessionsByPayload == old(sessionsByPayload) - Elements(keys[..i])
      {
        assert keys[..i + 1] == keys[..i] + [keys[i]];
        sessionsByPayload := sessionsByPayload - {keys[i]};
        i := i + 1;
      }
      assert keys[..i] == keys;
    }

    /** The outer loop of CleanupExpired. Stopping at the first key found for a session loses
        no key that must go, because the index is injective. */
    method DropOverdue(now: int, ghost gone: set<Bytes>) returns (removed: nat, keysToRemove: seq<Bytes>)
      requires Injective(sessionsByPayload)
      requires gone <= sessions.Keys && forall id :: id in sessions ==> (id in gone <==> now > sessions[id].expiresAt)
      modifies this`sessions
      ensures sessions == old(sessions) - gone
      ensures removed == |gone|
      ensures forall k :: k in keysToRemove <==> k in sessionsByPayload && sessionsByPayload[k] in gone
    {
      removed := 0;
      keysToRemove := [];
      var pending := sessions.Keys;
      ghost var done: set<Bytes> := {};
      while pending != {}
        invariant pending <= sessions.Keys && done <= gone && done !! pending
        invariant forall id :: id in gone ==> id in done || id in pending
        invariant sessions == old(sessions) - done
        invariant removed == |done|
        invariant forall k :: k in keysToRemove <==> k in sessionsByPayload && sessionsByPayload[k] in done
        decreases pending
      {
        var id :| id in pending;
        pending := pending - {id};
        if now > sessions[id].expiresAt {
          sessions := sessions - {id};
          removed := removed + 1;
          done := done + {id};
          var key := FirstKeyOf(id);
          if key.Some? {
            keysToRemove := keysToRemove + [key.value];
          }
        }
      }
      assert done == gone;
    }

    /** The body of CleanupExpired, which relies on the payload index being injective. */
    method RemoveOverdue(now: int) returns (removed: nat)
      requires Keyed() && Injective(sessionsByPayload)
      modifies this`sessions, this`sessionsByPayload
      ensures Keyed()
      ensures Value() == CleanTable(old(Value()), now)
      ensures sessions == old(sessions) - Overdue(old(Value()), now)
      ensures removed == |Overdue(old(Value()), now)|
    {
      ghost var was, index := Value(), sessionsByPayload;
      ghost var gone := Overdue(was, now);
      var keysToRemove;
      removed, keysToRemove := DropOverdue(now, gone);
      DeleteKeys(keysToRemove);
      IndexWithout(index, keysToRemove, gone);
      RowsDropped(gone);
    }

    /** Dropping session objects drops the rows of the table. */
    twostate lemma RowsDropped(gone: set<Bytes>)
      requires sessions == old(sessions) - gone
      requires forall id :: id in sessions ==> sessions[id].Value() == old(sessions[id].Value())
      ensures Value().sessions == old(Value()).sessions - gone
    {
    }

    method CleanupExpired(now: int) returns (removed: nat)
      requires Valid()
      modifies this`sessions, this`sessionsByPayload
      ensures Valid()
      ensures Value() == CleanTable(old(Value()), now)
      ensures sessions == old(sessions) - Overdue(old(Value()), now)
      ensures removed == |Overdue(old(Value()), now)|
    {
      ghost var was := Value();
      CleanKeepsIndex(sha, was, now);
      IndexInjective(sha, was);
      removed := RemoveOverdue(now);
    }
  }
}
