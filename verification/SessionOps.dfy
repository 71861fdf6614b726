/** What each call of the session manager answers and does to its tables (session/manager.go),
    and the agreement of the indexes with the session table. */
module SessionOps {
  import opened Basics
  import opened Strings
  import opened Attestation
  import opened PayloadKeys
  import opened Sessions
  import Nonces
  import PolicyState

  datatype Rules = Rules(sha: Sha, verifier: VerifierPolicy, nonceMaxAge: int, timeout: int)

  // ---- CreateSession ----

  function ParticipantIds(ps: seq<Participant>): (ids: seq<Bytes>)
    ensures |ids| == |ps|
    ensures forall i :: 0 <= i < |ps| ==> ids[i] == ps[i].signerID
  {
    seq(|ps|, i requires 0 <= i < |ps| => ps[i].signerID)
  }

  function NewParticipants(ids: seq<Bytes>): (ps: seq<Participant>)
    ensures |ps| == |ids|
    ensures forall i :: 0 <= i < |ids| ==> ps[i] == NewParticipant(ids[i])
  {
    seq(|ids|, i requires 0 <= i < |ids| => NewParticipant(ids[i]))
  }

  /** The first required signer that may not take part decides the refusal. */
  function SelectionRefusal(p: PolicyState.Policy, ids: seq<Bytes>): Option<SessionError> {
    if ids == [] then None
    else if ids[0] !in p.signers then Some(ErrSignerNotEnrolled)
    else if p.signers[ids[0]].status != PolicyState.Active then Some(ErrSignerNotActive)
    else SelectionRefusal(p, ids[1..])
  }

  /** `listing` is the order in which the map of active signers happened to be ranged over. */
  function SelectedIds(req: Request, listing: seq<Bytes>): seq<Bytes> {
    if req.requiredSigners != [] then req.requiredSigners else listing
  }

  type Selection = Result<seq<Participant>, SessionError>

  function Selected(p: PolicyState.Policy, req: Request, listing: seq<Bytes>): Selection {
    match SelectionRefusal(p, req.requiredSigners)
    case Some(e) => Err(e)
    case None => Ok(NewParticipants(SelectedIds(req, listing)))
  }

  /** What selectParticipants may answer, given that map order is arbitrary. */
  ghost predicate SelectsFrom(p: PolicyState.Policy, req: Request, r: Selection) {
    exists listing :: Lists(listing, p.ActiveIds()) && r == Selected(p, req, listing)
  }

  function KeyOf(h: Sha, s: SessionValue): Bytes {
    PayloadKey(h, s.payloadHash, ParticipantIds(s.participants))
  }

  predicate InFlight(s: SessionValue) {
    s.status != SessionExpired && s.status != SessionFailed
  }

  /** The session a request ID resolves to. */
  function Bound(t: Table, requestID: Bytes): Option<Bytes> {
    if requestID in t.requestIndex && t.requestIndex[requestID] in t.sessions
    then Some(t.requestIndex[requestID]) else None
  }

  /** The in-flight session filed under a payload key. */
  function Reusable(t: Table, key: Bytes): Option<Bytes> {
    if key in t.byPayload && t.byPayload[key] in t.sessions && InFlight(t.sessions[t.byPayload[key]])
    then Some(t.byPayload[key]) else None
  }

  function FreshSession(c: Rules, threshold: int, req: Request, ids: seq<Bytes>, id: Bytes, now: int): SessionValue {
    SessionValue(id, SessionAttesting, NewParticipants(ids), threshold, req.payloadHash, now, now + c.timeout, map[])
  }

  /** The answer once the participants have been selected and their payload key is known. */
  function OpenAnswer(t: Table, threshold: int, ids: seq<Bytes>, key: Bytes, drawn: Option<Bytes>): Answer {
    if |ids| < threshold then Err(ErrInsufficientSigners)
    else if Reusable(t, key).Some? then Ok(Reusable(t, key).value)
    else if drawn.None? then Err(ErrRandomSource)
    else Ok(drawn.value)
  }

  function OpenIn(c: Rules, t: Table, threshold: int, req: Request, ids: seq<Bytes>, key: Bytes,
                  drawn: Option<Bytes>, now: int): Table
  {
    var answer := OpenAnswer(t, threshold, ids, key, drawn);
    if answer.Err? then t
    else if Reusable(t, key).Some? then t.(requestIndex := t.requestIndex[req.requestID := answer.value])
    else Table(t.sessions[answer.value := FreshSession(c, threshold, req, ids, answer.value, now)],
               t.requestIndex[req.requestID := answer.value],
               t.byPayload[key := answer.value])
  }

  function RequestKey(c: Rules, req: Request, ids: seq<Bytes>): Bytes {
    PayloadKey(c.sha, req.payloadHash, ids)
  }

  function CreateAnswer(c: Rules, t: Table, p: PolicyState.Policy, req: Request, listing: seq<Bytes>,
                        drawn: Option<Bytes>): Answer
  {
    var refusal := SelectionRefusal(p, req.requiredSigners);
    if Bound(t, req.requestID).Some? then Ok(Bound(t, req.requestID).value)
    else if refusal.Some? then Err(refusal.value)
    else
      var ids := SelectedIds(req, listing);
      OpenAnswer(t, p.config.threshold, ids, RequestKey(c, req, ids), drawn)
  }

  function CreateIn(c: Rules, t: Table, p: PolicyState.Policy, req: Request, listing: seq<Bytes>,
                    drawn: Option<Bytes>, now: int): Table
  {
    if Bound(t, req.requestID).Some? || SelectionRefusal(p, req.requiredSigners).Some? then t
    else
      var ids := SelectedIds(req, listing);
      OpenIn(c, t, p.config.threshold, req, ids, RequestKey(c, req, ids), drawn, now)
  }

  // ---- GetSession, IssueChallenge ----

  function GetAnswer(t: Table, id: Bytes, now: int): Answer {
    if id !in t.sessions then Err(ErrSessionNotFound)
    else if now > t.sessions[id].expiresAt then Err(ErrSessionExpired)
    else Ok(id)
  }

  predicate Takes(s: SessionValue, signerID: Bytes) {
    Position(s.participants, signerID) < |s.participants|
  }

  function ChallengeAnswer(t: Table, id: Bytes, signerID: Bytes, drawn: Option<Bytes>, now: int): Answer {
    var found := GetAnswer(t, id, now);
    if found.Err? then found
    else if !Takes(t.sessions[id], signerID) then Err(ErrSignerNotEnrolled)
    else if drawn.None? then Err(ErrRandomSource)
    else Ok(drawn.value)
  }

  // ---- SubmitAttestation ----

  /** The refusal that precedes any look at the nonce. */
  function EntryRefusal(t: Table, id: Bytes, signerID: Bytes, now: int): Option<SessionError> {
    if id !in t.sessions then Some(ErrSessionNotFound)
    else if now > t.sessions[id].expiresAt then Some(ErrSessionExpired)
    else if !Takes(t.sessions[id], signerID) then Some(ErrSignerNotEnrolled)
    else None
  }

  function SubmitAnswer(c: Rules, t: Table, nonces: Nonces.Store, id: Bytes, signerID: Bytes,
                        doc: Option<Document>, nonce: Bytes, now: int): Answer {
    var entry := EntryRefusal(t, id, signerID, now);
    var verdict := Nonces.Judge(nonces, c.nonceMaxAge, nonce, now);
    var code := FirstFailure(c.verifier, doc, nonce, now);
    if entry.Some? then Err(entry.value)
    else if !verdict.Accepted? then Err(ErrNonce(verdict))
    else if code != RejectNone then Err(ErrRejected(code))
    else DONE
  }

  function MaybeAdvance(s: SessionValue): SessionValue {
    if s.status == SessionAttesting && Count(s.participants, Attested) >= s.threshold
    then s.(status := SessionCommit) else s
  }

  function Attest(s: SessionValue, signerID: Bytes, doc: Document, now: int): SessionValue {
    MaybeAdvance(s.(attestations := s.attestations[signerID := doc],
                    participants := RaiseFirst(s.participants, signerID, Attested, now)))
  }

  function SubmitIn(c: Rules, t: Table, nonces: Nonces.Store, id: Bytes, signerID: Bytes,
                    doc: Option<Document>, nonce: Bytes, now: int): Table {
    var answer := SubmitAnswer(c, t, nonces, id, signerID, doc, nonce, now);
    if answer == Err(ErrSessionExpired)
    then t.(sessions := t.sessions[id := t.sessions[id].(status := SessionExpired)])
    else if answer.Ok?
    then t.(sessions := t.sessions[id := Attest(t.sessions[id], signerID, doc.value, now)])
    else t
  }

  /** The nonce is spent as soon as it is accepted, even if verification then fails. */
  function SubmitNonces(c: Rules, t: Table, nonces: Nonces.Store, id: Bytes, signerID: Bytes,
                        nonce: Bytes, now: int): Nonces.Store
  {
    if EntryRefusal(t, id, signerID, now).Some? then nonces
    else Nonces.ValidateIn(nonces, c.nonceMaxAge, nonce, now)
  }

  // ---- RecordCommitment, RecordShare ----

  /** The phase in which flag f is recorded, and the phase that follows once enough have it. */
  function PhaseFor(f: Flag): Status {
    match f
    case Attested => SessionAttesting
    case Committed => SessionCommit
    case Shared => SessionSign
  }

  function PhaseAfter(f: Flag): Status {
    match f
    case Attested => SessionCommit
    case Committed => SessionSign
    case Shared => SessionComplete
  }

  function RecordAnswer(t: Table, id: Bytes, signerID: Bytes, f: Flag): Answer {
    if id !in t.sessions then Err(ErrSessionNotFound)
    else
      var s := t.sessions[id];
      var i := Position(s.participants, signerID);
      if s.status != PhaseFor(f) then Err(ErrWrongPhase)
      else if i < |s.participants| && !s.participants[i].attested then Err(ErrAttestationRequired)
      else DONE
  }

  /** A commitment or share is recorded, then all are counted. */
  function RecordOn(s: SessionValue, signerID: Bytes, f: Flag): SessionValue {
    var s' := s.(participants := RaiseFirst(s.participants, signerID, f, 0));
    if Count(s'.participants, f) >= s'.threshold then s'.(status := PhaseAfter(f)) else s'
  }

  function RecordIn(t: Table, id: Bytes, signerID: Bytes, f: Flag): Table {
    if RecordAnswer(t, id, signerID, f).Err? then t
    else t.(sessions := t.sessions[id := RecordOn(t.sessions[id], signerID, f)])
  }

  // ---- CleanupExpired ----

  function Overdue(t: Table, now: int): set<Bytes> {
    set id | id in t.sessions && now > t.sessions[id].expiresAt
  }

  function CleanTable(t: Table, now: int): Table {
    var gone := Overdue(t, now);
    t.(sessions := t.sessions - gone,
       byPayload := map k | k in t.byPayload && t.byPayload[k] !in gone :: t.byPayload[k])
  }

  // ---- The indexes agree with the table ----

  /** Sessions are filed under their IDs; an index entry never dangles and is filed under its
      session's key; every in-flight session is the one its key points to. */
  ghost predicate Indexed(h: Sha, t: Table) {
    && (forall id {:trigger t.sessions[id].id} :: id in t.sessions ==> t.sessions[id].id == id)
    && (forall k {:trigger t.byPayload[k]} :: k in t.byPayload ==> t.byPayload[k] in t.sessions)
    && (forall k {:trigger KeyOf(h, t.sessions[t.byPayload[k]])} ::
          k in t.byPayload && t.byPayload[k] in t.sessions ==> KeyOf(h, t.sessions[t.byPayload[k]]) == k)
    && (forall id {:trigger KeyOf(h, t.sessions[id])} ::
          id in t.sessions && InFlight(t.sessions[id]) ==>
            KeyOf(h, t.sessions[id]) in t.byPayload && t.byPayload[KeyOf(h, t.sessions[id])] == id)
  }

  /** At most one session per payload key is neither expired nor failed. */
  lemma OneInFlightPerKey(h: Sha, t: Table, a: Bytes, b: Bytes)
    requires Indexed(h, t)
    requires a in t.sessions && b in t.sessions && InFlight(t.sessions[a]) && InFlight(t.sessions[b])
    requires KeyOf(h, t.sessions[a]) == KeyOf(h, t.sessions[b])
    ensures a == b
  {
    assert t.byPayload[KeyOf(h, t.sessions[a])] == a;
  }

  ghost predicate Injective(m: map<Bytes, Bytes>) {
    forall j, k :: j in m && k in m && m[j] == m[k] ==> j == k
  }

  /** The payload index is injective: one key at most names a given session. */
  lemma IndexInjective(h: Sha, t: Table)
    requires Indexed(h, t)
    ensures Injective(t.byPayload)
  {
    forall j, k | j in t.byPayload && k in t.byPayload && t.byPayload[j] == t.byPayload[k] ensures j == k {
      assert KeyOf(h, t.sessions[t.byPayload[j]]) == j;
      assert KeyOf(h, t.sessions[t.byPayload[k]]) == k;
    }
  }

  /** Two values of one session over time: identity, payload, participants' IDs, threshold and
      deadline are fixed, and an expired session stays expired. */
  ghost predicate Follows(s: SessionValue, s': SessionValue) {
    && s'.id == s.id && s'.payloadHash == s.payloadHash && s'.threshold == s.threshold
    && s'.createdAt == s.createdAt && s'.expiresAt == s.expiresAt
    && ParticipantIds(s'.participants) == ParticipantIds(s.participants)
    && (InFlight(s') ==> InFlight(s))
  }

  lemma ReplaceKeepsIndex(h: Sha, t: Table, id: Bytes, s': SessionValue)
    requires Indexed(h, t) && id in t.sessions && Follows(t.sessions[id], s')
    ensures Indexed(h, t.(sessions := t.sessions[id := s']))
  {
    var t' := t.(sessions := t.sessions[id := s']);
    assert KeyOf(h, s') == KeyOf(h, t.sessions[id]);
    forall k | k in t.byPayload ensures KeyOf(h, t'.sessions[t.byPayload[k]]) == k {
      assert KeyOf(h, t.sessions[t.byPayload[k]]) == k;
    }
    forall x | x in t'.sessions && InFlight(t'.sessions[x])
      ensures KeyOf(h, t'.sessions[x]) in t.byPayload && t.byPayload[KeyOf(h, t'.sessions[x])] == x
    {
      assert KeyOf(h, t.sessions[x]) == KeyOf(h, t'.sessions[x]);
    }
  }

  lemma RaiseKeepsIds(ps: seq<Participant>, id: Bytes, f: Flag, now: int)
    ensures ParticipantIds(RaiseFirst(ps, id, f, now)) == ParticipantIds(ps)
  {
    var r := RaiseFirst(ps, id, f, now);
    forall i | 0 <= i < |ps| ensures r[i].signerID == ps[i].signerID {}
  }

  lemma AttestFollows(s: SessionValue, signerID: Bytes, doc: Document, now: int)
    ensures Follows(s, Attest(s, signerID, doc, now))
  {
    RaiseKeepsIds(s.participants, signerID, Attested, now);
  }

  lemma RecordFollows(s: SessionValue, signerID: Bytes, f: Flag)
    requires s.status == PhaseFor(f)
    ensures Follows(s, RecordOn(s, signerID, f))
  {
    RaiseKeepsIds(s.participants, signerID, f, 0);
  }

  lemma SubmitKeepsIndex(c: Rules, t: Table, nonces: Nonces.Store, id: Bytes, signerID: Bytes,
                         doc: Option<Document>, nonce: Bytes, now: int)
    requires Indexed(c.sha, t)
    ensures Indexed(c.sha, SubmitIn(c, t, nonces, id, signerID, doc, nonce, now))
  {
    var answer := SubmitAnswer(c, t, nonces, id, signerID, doc, nonce, now);
    if answer == Err(ErrSessionExpired) {
      ReplaceKeepsIndex(c.sha, t, id, t.sessions[id].(status := SessionExpired));
    } else if answer.Ok? {
      AttestFollows(t.sessions[id], signerID, doc.value, now);
      ReplaceKeepsIndex(c.sha, t, id, Attest(t.sessions[id], signerID, doc.value, now));
    }
  }

  lemma RecordKeepsIndex(h: Sha, t: Table, id: Bytes, signerID: Bytes, f: Flag)
    requires Indexed(h, t)
    ensures Indexed(h, RecordIn(t, id, signerID, f))
  {
    if RecordAnswer(t, id, signerID, f).Ok? {
      RecordFollows(t.sessions[id], signerID, f);
      ReplaceKeepsIndex(h, t, id, RecordOn(t.sessions[id], signerID, f));
    }
  }

  lemma InsertKeepsIndex(h: Sha, t: Table, id: Bytes, s: SessionValue, requests: map<Bytes, Bytes>)
    requires Indexed(h, t) && id !in t.sessions && s.id == id
    requires Reusable(t, KeyOf(h, s)).None?
    ensures Indexed(h, Table(t.sessions[id := s], requests, t.byPayload[KeyOf(h, s) := id]))
  {
    var key := KeyOf(h, s);
    var t' := Table(t.sessions[id := s], requests, t.byPayload[key := id]);
    forall k | k in t'.byPayload
      ensures t'.byPayload[k] in t'.sessions && KeyOf(h, t'.sessions[t'.byPayload[k]]) == k
    {
      if k != key {
        assert t.byPayload[k] in t.sessions && t.byPayload[k] != id;
      }
    }
    forall x | x in t'.sessions && InFlight(t'.sessions[x])
      ensures KeyOf(h, t'.sessions[x]) in t'.byPayload && t'.byPayload[KeyOf(h, t'.sessions[x])] == x
    {
      if x != id {
        assert x in t.sessions && t.byPayload[KeyOf(h, t.sessions[x])] == x;
        assert KeyOf(h, t.sessions[x]) != key;
      }
    }
  }

  lemma FreshKey(c: Rules, threshold: int, req: Request, ids: seq<Bytes>, id: Bytes, now: int)
    ensures KeyOf(c.sha, FreshSession(c, threshold, req, ids, id, now)) == PayloadKey(c.sha, req.payloadHash, ids)
  {
    assert ParticipantIds(NewParticipants(ids)) == ids;
  }

  lemma OpenKeepsIndex(c: Rules, t: Table, threshold: int, req: Request, ids: seq<Bytes>,
                       drawn: Option<Bytes>, now: int)
    requires Indexed(c.sha, t)
    requires drawn.Some? ==> drawn.value !in t.sessions
    ensures Indexed(c.sha, OpenIn(c, t, threshold, req, ids, RequestKey(c, req, ids), drawn, now))
  {
    var answer := OpenAnswer(t, threshold, ids, RequestKey(c, req, ids), drawn);
    if answer.Ok? && Reusable(t, RequestKey(c, req, ids)).None? {
      var s := FreshSession(c, threshold, req, ids, answer.value, now);
      FreshKey(c, threshold, req, ids, answer.value, now);
      InsertKeepsIndex(c.sha, t, answer.value, s, t.requestIndex[req.requestID := answer.value]);
    }
  }

  lemma CreateKeepsIndex(c: Rules, t: Table, p: PolicyState.Policy, req: Request, listing: seq<Bytes>,
                         drawn: Option<Bytes>, now: int)
    requires Indexed(c.sha, t)
    requires drawn.Some? ==> drawn.value !in t.sessions
    ensures Indexed(c.sha, CreateIn(c, t, p, req, listing, drawn, now))
  {
    OpenKeepsIndex(c, t, p.config.threshold, req, SelectedIds(req, listing), drawn, now);
  }

  lemma CleanKeepsIndex(h: Sha, t: Table, now: int)
    requires Indexed(h, t)
    ensures Indexed(h, CleanTable(t, now))
  {
  }
}
