/** Exactly when each call succeeds, what each refusal means, and what a success writes. */
module Answers {
  import opened Attestation
  import opened Basics
  import opened Coordinator
  import opened Safety
  import opened SessionLaws
  import opened SessionOps
  import opened Sessions
  import opened Strings
  import Nonces
  import PolicyState

  // ---- Looking a session up ----

  predicate There(t: Table, id: Bytes) {
    id in t.sessions
  }

  predicate InTime(t: Table, id: Bytes, now: int) {
    id in t.sessions && now <= t.sessions[id].expiresAt
  }

  ghost predicate Member(t: Table, id: Bytes, signerID: Bytes) {
    id in t.sessions && signerID in Ids(t.sessions[id].participants)
  }

  lemma GetSucceedsIff(t: Table, id: Bytes, now: int)
    ensures GetAnswer(t, id, now) == Ok(id) <==> InTime(t, id, now)
    ensures GetAnswer(t, id, now) == Err(ErrSessionNotFound) <==> !There(t, id)
    ensures GetAnswer(t, id, now) == Err(ErrSessionExpired) <==> There(t, id) && !InTime(t, id, now)
  {
  }

  // ---- IssueChallenge ----

  /** A challenge is issued exactly to a participant of a session in time, if a nonce can be
      drawn; the first thing missing decides the refusal. Only the new nonce is written. */
  lemma ChallengeSucceedsIff(c: Rules, s: State, e: Event)
    requires e.Challenge?
    ensures var r, t := Reply(c, s, e), s.table;
            var inTime := InTime(t, e.id, e.now);
            && (r.Ok? <==> inTime && Member(t, e.id, e.signerID) && e.drawn.Some?)
            && (r.Ok? ==> Some(r.value) == e.drawn)
            && (r == Err(ErrSessionNotFound) <==> !There(t, e.id))
            && (r == Err(ErrSessionExpired) <==> There(t, e.id) && !inTime)
            && (r == Err(ErrSignerNotEnrolled) <==> inTime && !Member(t, e.id, e.signerID))
            && (r == Err(ErrRandomSource) <==> inTime && Member(t, e.id, e.signerID) && e.drawn == None)
    ensures Next(c, s, e).table == s.table && Next(c, s, e).policy == s.policy
    ensures Next(c, s, e).nonces ==
            if Reply(c, s, e).Ok? then s.nonces[Reply(c, s, e).value := Nonces.Entry(e.now, false)] else s.nonces
  {
    if There(s.table, e.id) {
      TakesIsMember(s.table.sessions[e.id], e.signerID);
    }
  }

  // ---- SubmitAttestation ----

  /** The nonce is known here, unused, and not too old. */
  predicate NonceGood(c: Rules, m: Nonces.Store, nonce: Bytes, now: int) {
    nonce in m && !m[nonce].used && now - m[nonce].issuedAt <= c.nonceMaxAge
  }

  predicate DocumentGood(c: Rules, doc: Option<Document>, nonce: Bytes, now: int) {
    doc.Some? && Fresh(c.verifier, doc.value, nonce) && InWindow(c.verifier, doc.value, now)
    && Chained(c.verifier, doc.value, now) && AllMeasured(c.verifier, doc.value)
  }

  /** An attestation is accepted exactly from a participant of a session in time, with a good
      nonce and a good document; the first thing missing decides the refusal. */
  lemma SubmitSucceedsIff(c: Rules, s: State, e: Event)
    requires e.Submit?
    ensures var r, t := Reply(c, s, e), s.table;
            var entered := InTime(t, e.id, e.now) && Member(t, e.id, e.signerID);
            var nonceGood := NonceGood(c, s.nonces, e.nonce, e.now);
            && (r.Ok? <==> entered && nonceGood && DocumentGood(c, e.doc, e.nonce, e.now))
            && (r == Err(ErrSessionNotFound) <==> !There(t, e.id))
            && (r == Err(ErrSessionExpired) <==> There(t, e.id) && !InTime(t, e.id, e.now))
            && (r == Err(ErrSignerNotEnrolled) <==> InTime(t, e.id, e.now) && !Member(t, e.id, e.signerID))
            && (r.Err? && r.error.ErrNonce? <==> entered && !nonceGood)
            && (r.Err? && r.error.ErrRejected? <==> entered && nonceGood && !DocumentGood(c, e.doc, e.nonce, e.now))
            && (r.Err? && r.error.ErrNonce? ==>
                  r.error.verdict == Nonces.Judge(s.nonces, c.nonceMaxAge, e.nonce, e.now))
            && (r.Err? && r.error.ErrRejected? ==> r.error.code == FirstFailure(c.verifier, e.doc, e.nonce, e.now))
    ensures Next(c, s, e).policy == s.policy
    ensures Next(c, s, e).nonces ==
            if InTime(s.table, e.id, e.now) && Member(s.table, e.id, e.signerID)
               && NonceGood(c, s.nonces, e.nonce, e.now)
            then s.nonces[e.nonce := s.nonces[e.nonce].(used := true)] else s.nonces
  {
    if There(s.table, e.id) {
      TakesIsMember(s.table.sessions[e.id], e.signerID);
    }
    if e.doc.Some? {
      VerdictMeans(c.verifier, e.doc.value, e.nonce, e.now);
    }
  }

  /** The first participant of this ID. */
  predicate FirstAt(ps: seq<Participant>, i: int, id: Bytes) {
    0 <= i < |ps| && ps[i].signerID == id && forall j :: 0 <= j < i ==> ps[j].signerID != id
  }

  lemma PositionIsFirst(ps: seq<Participant>, id: Bytes, i: int)
    ensures FirstAt(ps, i, id) <==> i == Position(ps, id) < |ps|
  {
    if FirstAt(ps, i, id) {
      PositionUnique(ps, id, i);
    }
  }

  /** Only the participant concerned changes, and in nothing but the flag and the time. */
  predicate AttestedAt(p: Participant, p': Participant, concerned: bool, now: int) {
    p' == if concerned then p.(attested := true, attestationTime := now) else p
  }

  predicate RecordedAt(p: Participant, p': Participant, concerned: bool, e: Event) {
    p' == if !concerned then p
          else if e.Commitment? then p.(commitmentReceived := true) else p.(shareReceived := true)
  }

  /** What a call leaves of a session that is fixed once and for all. */
  ghost predicate Kept(s: SessionValue, s': SessionValue) {
    && s'.id == s.id && s'.threshold == s.threshold && s'.payloadHash == s.payloadHash
    && s'.createdAt == s.createdAt && s'.expiresAt == s.expiresAt && |s'.participants| == |s.participants|
  }

  /** An accepted submission stores the document for its signer, and writes flag and time to the
      first participant of that ID, and to no other; it touches no other session. */
  lemma SubmissionWrites(c: Rules, s: State, e: Event)
    requires e.Submit? && Reply(c, s, e).Ok?
    ensures var t, t' := s.table, Next(c, s, e).table;
            && t'.requestIndex == t.requestIndex && t'.byPayload == t.byPayload
            && t'.sessions.Keys == t.sessions.Keys && e.id in t.sessions && e.doc.Some?
            && (forall x :: x in t.sessions && x != e.id ==> t'.sessions[x] == t.sessions[x])
            && var v, v' := t.sessions[e.id], t'.sessions[e.id];
               && Kept(v, v') && v'.attestations == v.attestations[e.signerID := e.doc.value]
               && forall i :: 0 <= i < |v.participants| ==>
                    AttestedAt(v.participants[i], v'.participants[i], FirstAt(v.participants, i, e.signerID), e.now)
  {
    var ps := s.table.sessions[e.id].participants;
    forall i | 0 <= i < |ps| ensures FirstAt(ps, i, e.signerID) <==> i == Position(ps, e.signerID) {
      PositionIsFirst(ps, e.signerID, i);
    }
  }

  /** A submission past the deadline marks the session expired, whatever its status, and no other
      submission does. */
  lemma SubmissionExpiresIff(c: Rules, s: State, e: Event)
    requires e.Submit? && There(s.table, e.id) && s.table.sessions[e.id].status != SessionExpired
    ensures There(Next(c, s, e).table, e.id)
    ensures Next(c, s, e).table.sessions[e.id].status == SessionExpired <==> e.now > s.table.sessions[e.id].expiresAt
  {
    SubmitResult(c, s, e, e.id);
  }

  // ---- RecordCommitment, RecordShare ----

  /** Commitments are taken in the commit phase, shares in the sign phase, from attested
      participants; a stranger's is taken too, to no effect. */
  lemma RecordSucceedsIff(c: Rules, s: State, e: Event)
    requires e.Commitment? || e.Share?
    requires There(s.table, e.id) ==> FirstOnly(s.table.sessions[e.id].participants)
    ensures var r, t := Reply(c, s, e), s.table;
            var phase := if e.Commitment? then SessionCommit else SessionSign;
            if !There(t, e.id) then r == Err(ErrSessionNotFound)
            else if t.sessions[e.id].status != phase then r == Err(ErrWrongPhase)
            else if e.signerID in Ids(t.sessions[e.id].participants)
                    && e.signerID !in Flagged(t.sessions[e.id].participants, Attested)
            then r == Err(ErrAttestationRequired)
            else r == Ok([])
    ensures Reply(c, s, e).Err? ==> Next(c, s, e) == s
  {
    if There(s.table, e.id) {
      TakesIsMember(s.table.sessions[e.id], e.signerID);
      FlaggedAtPosition(s.table.sessions[e.id].participants, e.signerID, Attested);
    }
  }

  /** A recorded commitment or share is written to the first participant of that ID, and nowhere
      else; documents, nonces and all other sessions stay as they are. */
  lemma RecordingWrites(c: Rules, s: State, e: Event)
    requires (e.Commitment? || e.Share?) && Reply(c, s, e).Ok?
    ensures var t, t' := s.table, Next(c, s, e).table;
            && Next(c, s, e).nonces == s.nonces && Next(c, s, e).policy == s.policy
            && t'.requestIndex == t.requestIndex && t'.byPayload == t.byPayload
            && t'.sessions.Keys == t.sessions.Keys && e.id in t.sessions
            && (forall x :: x in t.sessions && x != e.id ==> t'.sessions[x] == t.sessions[x])
            && var v, v' := t.sessions[e.id], t'.sessions[e.id];
               && Kept(v, v') && v'.attestations == v.attestations
               && forall i :: 0 <= i < |v.participants| ==>
                    RecordedAt(v.participants[i], v'.participants[i], FirstAt(v.participants, i, e.signerID), e)
  {
    RaiseWrites(s.table.sessions[e.id].participants, e.signerID, if e.Commitment? then Committed else Shared, e);
  }

  lemma RaiseWrites(ps: seq<Participant>, id: Bytes, f: Flag, e: Event)
    requires (e.Commitment? && f == Committed) || (e.Share? && f == Shared)
    ensures forall i :: 0 <= i < |ps| ==> RecordedAt(ps[i], RaiseFirst(ps, id, f, 0)[i], FirstAt(ps, i, id), e)
  {
    forall i | 0 <= i < |ps| ensures FirstAt(ps, i, id) <==> i == Position(ps, id) {
      PositionIsFirst(ps, id, i);
    }
  }

  // ---- CreateSession ----

  /** The first of these IDs whose signer may not take part. */
  ghost predicate FirstUnfit(p: PolicyState.Policy, ids: seq<Bytes>, i: int) {
    0 <= i < |ids| && ids[i] !in p.ActiveIds() && forall j :: 0 <= j < i ==> ids[j] in p.ActiveIds()
  }

  lemma {:induction false} RefusedForFirstUnfit(p: PolicyState.Policy, ids: seq<Bytes>, i: nat)
    requires FirstUnfit(p, ids, i)
    ensures SelectionRefusal(p, ids) == Some(if ids[i] in p.signers then ErrSignerNotActive else ErrSignerNotEnrolled)
  {
    if i == 0 {
    } else {
      assert forall j :: 0 <= j < i - 1 ==> ids[1..][j] == ids[j + 1];
      RefusedForFirstUnfit(p, ids[1..], i - 1);
    }
  }

  /** What each refusal of CreateSession means, in the order of the checks. */
  lemma CreateRefusals(c: Rules, s: State, e: Event, i: nat)
    requires e.Create? && Bound(s.table, e.req.requestID).None?
    ensures var ids := SelectedIds(e.req, e.listing);
            var r := Reply(c, s, e);
            && (FirstUnfit(s.policy, e.req.requiredSigners, i) ==>
                  r == Err(if e.req.requiredSigners[i] in s.policy.signers
                           then ErrSignerNotActive else ErrSignerNotEnrolled))
            && (Elements(e.req.requiredSigners) <= s.policy.ActiveIds() ==>
                  && (r == Err(ErrInsufficientSigners) <==> |ids| < s.policy.config.threshold)
                  && (r == Err(ErrRandomSource) <==>
                      |ids| >= s.policy.config.threshold && Reusable(s.table, RequestKey(c, e.req, ids)).None?
                      && e.drawn.None?))
  {
    if FirstUnfit(s.policy, e.req.requiredSigners, i) {
      RefusedForFirstUnfit(s.policy, e.req.requiredSigners, i);
    }
    if Elements(e.req.requiredSigners) <= s.policy.ActiveIds() {
      SelectionRefusedIff(s.policy, e.req.requiredSigners);
      assert forall x :: x in e.req.requiredSigners ==> x in Elements(e.req.requiredSigners);
    }
  }

  // ---- CleanupExpired ----

  /** A clean-up takes out the sessions past their deadline, the payload keys that named them, and
      nothing else, and reports how many sessions that were. */
  lemma CleanupExact(c: Rules, s: State, now: int)
    ensures var t, t' := s.table, Next(c, s, Cleanup(now)).table;
            && (forall id :: id in t'.sessions <==> InTime(t, id, now))
            && (forall id :: id in t'.sessions ==> t'.sessions[id] == t.sessions[id])
            && (forall k :: k in t'.byPayload <==>
                  k in t.byPayload && (There(t, t.byPayload[k]) ==> InTime(t, t.byPayload[k], now)))
            && (forall k :: k in t'.byPayload ==> t'.byPayload[k] == t.byPayload[k])
            && t'.requestIndex == t.requestIndex
            && ReportOf(c, s, Cleanup(now)) == Removed(|t.sessions| - |t'.sessions|)
    ensures Next(c, s, Cleanup(now)).nonces == s.nonces && Next(c, s, Cleanup(now)).policy == s.policy
  {
    var t, gone := s.table, Overdue(s.table, now);
    var left := t.sessions - gone;
    assert left.Keys == t.sessions.Keys - gone;
    assert |left.Keys| == |left| && |t.sessions.Keys| == |t.sessions|;
  }

  /** A clean-up of nonces keeps those not older than twice the maximum age, used or not, as they
      are, and reports how many it has removed. */
  lemma NonceCleanupExact(c: Rules, s: State, now: int)
    ensures var m, m' := s.nonces, Next(c, s, CleanupNonces(now)).nonces;
            && (forall n :: n in m' <==> n in m && now - m[n].issuedAt <= 2 * c.nonceMaxAge)
            && (forall n :: n in m' ==> m'[n] == m[n])
            && ReportOf(c, s, CleanupNonces(now)) == Removed(|m| - |m'|)
    ensures Next(c, s, CleanupNonces(now)).table == s.table && Next(c, s, CleanupNonces(now)).policy == s.policy
  {
  }
}
