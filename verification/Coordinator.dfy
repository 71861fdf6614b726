/** Whole runs of the coordinator: manager, nonces and policy under arbitrary calls. */
module Coordinator {
  import opened Basics
  import opened Strings
  import opened Attestation
  import opened Sessions
  import opened SessionOps
  import opened SessionLaws
  import Nonces
  import PolicyState

  datatype State = State(table: Table, nonces: Nonces.Store, policy: PolicyState.Policy)

  /** One call. `now` is the clock reading it takes, `drawn` what the random source yields,
      `listing` the order in which the active signers happen to be ranged over. */
  datatype Event =
    | Create(req: Request, listing: seq<Bytes>, drawn: Option<Bytes>, now: int)
    | Challenge(id: Bytes, signerID: Bytes, drawn: Option<Bytes>, now: int)
    | Submit(id: Bytes, signerID: Bytes, doc: Option<Document>, nonce: Bytes, now: int)
    | Commitment(id: Bytes, signerID: Bytes)
    | Share(id: Bytes, signerID: Bytes)
    | Cleanup(now: int)
    | CleanupNonces(now: int)
    | PolicyOp(op: PolicyState.Operation)

  function Reply(c: Rules, s: State, e: Event): Answer {
    match e
    case Create(req, listing, drawn, now) => CreateAnswer(c, s.table, s.policy, req, listing, drawn)
    case Challenge(id, signer, drawn, now) => ChallengeAnswer(s.table, id, signer, drawn, now)
    case Submit(id, signer, doc, nonce, now) => SubmitAnswer(c, s.table, s.nonces, id, signer, doc, nonce, now)
    case Commitment(id, signer) => RecordAnswer(s.table, id, signer, Committed)
    case Share(id, signer) => RecordAnswer(s.table, id, signer, Shared)
    case Cleanup(_) => DONE
    case CleanupNonces(_) => DONE
    case PolicyOp(_) => DONE
  }

  /** What a call reports besides: a clean-up its count, a policy operation its version or refusal. */
  datatype Report = NoReport | Removed(count: int) | Version(result: PolicyState.VersionResult)

  function ReportOf(c: Rules, s: State, e: Event): Report {
    match e
    case Cleanup(now) => Removed(|Overdue(s.table, now)|)
    case CleanupNonces(now) => Removed(|s.nonces| - |Nonces.CleanIn(s.nonces, c.nonceMaxAge, now)|)
    case PolicyOp(op) => Version(PolicyState.Answer(s.policy, op))
    case _ => NoReport
  }

  function Next(c: Rules, s: State, e: Event): State {
    match e
    case Create(req, listing, drawn, now) =>
      s.(table := CreateIn(c, s.table, s.policy, req, listing, drawn, now))
    case Challenge(id, signer, drawn, now) =>
      var answer := ChallengeAnswer(s.table, id, signer, drawn, now);
      if answer.Ok? then s.(nonces := Nonces.IssueIn(s.nonces, answer.value, now)) else s
    case Submit(id, signer, doc, nonce, now) =>
      s.(table := SubmitIn(c, s.table, s.nonces, id, signer, doc, nonce, now),
         nonces := SubmitNonces(c, s.table, s.nonces, id, signer, nonce, now))
    case Commitment(id, signer) => s.(table := RecordIn(s.table, id, signer, Committed))
    case Share(id, signer) => s.(table := RecordIn(s.table, id, signer, Shared))
    case Cleanup(now) => s.(table := CleanTable(s.table, now))
    case CleanupNonces(now) => s.(nonces := Nonces.CleanIn(s.nonces, c.nonceMaxAge, now))
    case PolicyOp(op) => s.(policy := PolicyState.Apply(s.policy, op))
  }

  // ---- History: what has happened so far ----

  datatype Acceptance = Acceptance(id: Bytes, signerID: Bytes, doc: Document, at: int)

  /** The latest clock reading; every session ID drawn; when each nonce was issued and
      consumed; what each consumed nonce was accepted for, if it was; and the signers active
      when each session was created. */
  datatype History = History(now: int, drawnIds: set<Bytes>, issued: map<Bytes, int>, consumed: map<Bytes, int>,
                             accepted: map<Bytes, Acceptance>, activeAt: map<Bytes, set<Bytes>>)

  datatype World = World(state: State, history: History)

  function Clock(e: Event): Option<int> {
    match e
    case Create(_, _, _, now) => Some(now)
    case Challenge(_, _, _, now) => Some(now)
    case Submit(_, _, _, _, now) => Some(now)
    case Cleanup(now) => Some(now)
    case CleanupNonces(now) => Some(now)
    case Commitment(_, _) => None
    case Share(_, _) => None
    case PolicyOp(_) => None
  }

  /** The kinds of nonce event whose numbers are compared. */
  datatype Kind = Issuing | Consuming | Accepting

  function Happens(k: Kind, c: Rules, s: State, e: Event): bool {
    match k
    case Issuing => e.Challenge? && Reply(c, s, e).Ok?
    case Consuming => e.Submit? && EntryRefusal(s.table, e.id, e.signerID, e.now).None?
                      && Nonces.Judge(s.nonces, c.nonceMaxAge, e.nonce, e.now).Accepted?
    case Accepting => e.Submit? && Reply(c, s, e).Ok?
  }

  ghost predicate Opens(c: Rules, s: State, e: Event) {
    e.Create? && Reply(c, s, e).Ok? && Reply(c, s, e).value !in s.table.sessions
  }

  ghost function Recorded(c: Rules, w: World, e: Event): History {
    var s, h := w.state, w.history;
    History(
      if Clock(e).Some? then Clock(e).value else h.now,
      if e.Create? && e.drawn.Some? then h.drawnIds + {e.drawn.value} else h.drawnIds,
      if Happens(Issuing, c, s, e) then h.issued[Reply(c, s, e).value := e.now] else h.issued,
      if Happens(Consuming, c, s, e) then h.consumed[e.nonce := e.now] else h.consumed,
      if Happens(Accepting, c, s, e)
      then h.accepted[e.nonce := Acceptance(e.id, e.signerID, e.doc.value, e.now)] else h.accepted,
      if Opens(c, s, e) then h.activeAt[Reply(c, s, e).value := s.policy.ActiveIds()] else h.activeAt)
  }

  ghost function Step(c: Rules, w: World, e: Event): World {
    World(Next(c, w.state, e), Recorded(c, w, e))
  }

  /** The clock does not run backwards, random draws never repeat, and a listing of the active
      signers is one. */
  ghost predicate Legal(w: World, e: Event) {
    && (Clock(e).Some? ==> w.history.now <= Clock(e).value)
    && (e.Create? ==> Lists(e.listing, w.state.policy.ActiveIds())
                      && (e.drawn.Some? ==> e.drawn.value !in w.history.drawnIds))
    && (e.Challenge? && e.drawn.Some? ==> e.drawn.value !in w.history.issued)
  }

  ghost predicate LegalRun(c: Rules, w: World, es: seq<Event>)
    decreases |es|
  {
    es == [] || (Legal(w, es[0]) && LegalRun(c, Step(c, w, es[0]), es[1..]))
  }

  ghost function Run(c: Rules, w: World, es: seq<Event>): World
    decreases |es|
  {
    if es == [] then w else Run(c, Step(c, w, es[0]), es[1..])
  }

  /** The answers of a run, call by call. */
  ghost function Replies(c: Rules, w: World, es: seq<Event>): seq<(Answer, Report)>
    decreases |es|
  {
    if es == [] then []
    else [(Reply(c, w.state, es[0]), ReportOf(c, w.state, es[0]))] + Replies(c, Step(c, w, es[0]), es[1..])
  }

  ghost function Start(config: PolicyState.ThresholdConfig, now: int): World {
    World(State(Table(map[], map[], map[]), map[], PolicyState.InitialPolicy(config)),
          History(now, {}, map[], map[], map[], map[]))
  }

  // ---- The invariant ----

  ghost predicate SessionOk(w: World, id: Bytes) {
    id in w.state.table.sessions ==>
      var s := w.state.table.sessions[id];
      && Sound(s) && s.threshold == w.state.policy.config.threshold
      && id in w.history.drawnIds
      && id in w.history.activeAt && Ids(s.participants) <= w.history.activeAt[id]
      && (s.status == SessionExpired ==> w.history.now > s.expiresAt)
  }

  ghost predicate TablesOk(c: Rules, w: World) {
    && w.state.policy.config.Valid()
    && Indexed(c.sha, w.state.table)
    && (forall id :: SessionOk(w, id))
  }

  /** The nonce store agrees with the history; nonces are consumed at most once, in time. */
  ghost predicate NoncesOk(c: Rules, w: World) {
    var m, h := w.state.nonces, w.history;
    && (forall n :: n in m ==> n in h.issued && m[n].issuedAt == h.issued[n] && (m[n].used <==> n in h.consumed))
    && (forall n :: n in h.issued ==> h.issued[n] <= h.now)
    && (forall n :: n in h.consumed ==>
          n in h.issued && h.issued[n] <= h.consumed[n] <= h.issued[n] + c.nonceMaxAge)
    && (forall n :: n in h.accepted ==>
          n in h.consumed && h.accepted[n].at == h.consumed[n] && h.accepted[n].doc.nonce == n
          && Passes(c.verifier, h.accepted[n].doc, n, h.accepted[n].at))
  }

  /** The document stored for a signer is the one its nonce was accepted for, there. */
  ghost predicate StoredOk(w: World, id: Bytes, signerID: Bytes) {
    id in w.state.table.sessions && signerID in w.state.table.sessions[id].attestations ==>
      var d := w.state.table.sessions[id].attestations[signerID];
      && d.nonce in w.history.accepted
      && var a := w.history.accepted[d.nonce]; a.id == id && a.signerID == signerID && a.doc == d
  }

  ghost predicate LinksOk(w: World) {
    forall id, signerID :: StoredOk(w, id, signerID)
  }

  /** Request IDs are only ever bound to session IDs that were drawn. */
  ghost predicate RequestsOk(w: World) {
    var bound := w.state.table.requestIndex;
    forall r :: r in bound ==> bound[r] in w.history.drawnIds
  }

  ghost predicate Inv(c: Rules, w: World) {
    TablesOk(c, w) && NoncesOk(c, w) && LinksOk(w) && RequestsOk(w)
  }

  // ---- How a step treats one session ----

  lemma RecordReplyMeans(s: State, id: Bytes, signerID: Bytes, f: Flag)
    requires f != Attested
    ensures RecordAnswer(s.table, id, signerID, f).Ok? <==>
            id in s.table.sessions && MayRecord(s.table.sessions[id], signerID, f)
  {
  }

  /** What a submission makes of a session. */
  lemma SubmitResult(c: Rules, s: State, e: Event, id: Bytes)
    requires e.Submit? && id in s.table.sessions
    ensures var t' := Next(c, s, e).table;
            id in t'.sessions && t'.sessions[id] ==
            if e.id != id then s.table.sessions[id]
            else if Reply(c, s, e).Ok? then Attest(s.table.sessions[id], e.signerID, e.doc.value, e.now)
            else if e.now > s.table.sessions[id].expiresAt then s.table.sessions[id].(status := SessionExpired)
            else s.table.sessions[id]
    ensures e.id == id && Reply(c, s, e).Ok? ==>
              e.now <= s.table.sessions[id].expiresAt && Takes(s.table.sessions[id], e.signerID)
  {
  }

  lemma ExpiryEvolves(s: SessionValue)
    requires Sound(s)
    ensures Evolves(s, s.(status := SessionExpired)) && Sound(s.(status := SessionExpired))
  {
  }

  lemma SubmitEvolves(c: Rules, w: World, e: Event, id: Bytes)
    requires e.Submit? && SessionOk(w, id) && Legal(w, e) && id in w.state.table.sessions
    ensures var t' := Next(c, w.state, e).table;
            id in t'.sessions && Evolves(w.state.table.sessions[id], t'.sessions[id]) && Sound(t'.sessions[id])
  {
    var s := w.state.table.sessions[id];
    SubmitResult(c, w.state, e, id);
    if e.id == id && Reply(c, w.state, e).Ok? {
      AttestKeepsSound(s, e.signerID, e.doc.value, e.now);
      AttestEvolves(s, e.signerID, e.doc.value, e.now);
    } else {
      ExpiryEvolves(s);
    }
  }

  lemma RecordStepEvolves(w: World, x: Bytes, signerID: Bytes, f: Flag, id: Bytes)
    requires f != Attested && SessionOk(w, id) && id in w.state.table.sessions
    ensures var t' := RecordIn(w.state.table, x, signerID, f);
            id in t'.sessions && Evolves(w.state.table.sessions[id], t'.sessions[id]) && Sound(t'.sessions[id])
  {
    var s := w.state.table.sessions[id];
    RecordReplyMeans(w.state, x, signerID, f);
    if x == id && RecordAnswer(w.state.table, x, signerID, f).Ok? {
      RecordKeepsSound(s, signerID, f);
      RecordEvolves(s, signerID, f);
    } else {
      assert RecordIn(w.state.table, x, signerID, f).sessions[id] == s;
    }
  }

  /** Opening a session leaves the others alone, because its ID is fresh. */
  lemma CreateKeepsRows(c: Rules, w: World, e: Event, id: Bytes)
    requires e.Create? && Legal(w, e) && SessionOk(w, id) && id in w.state.table.sessions
    ensures id in Next(c, w.state, e).table.sessions
            && Next(c, w.state, e).table.sessions[id] == w.state.table.sessions[id]
  {
  }

  /** A session that is there before and after a step has evolved, and stays sound. */
  lemma StepEvolves(c: Rules, w: World, e: Event, id: Bytes)
    requires SessionOk(w, id) && Legal(w, e)
    requires id in w.state.table.sessions && id in Next(c, w.state, e).table.sessions
    ensures var s, s' := w.state.table.sessions[id], Next(c, w.state, e).table.sessions[id];
            Evolves(s, s') && Sound(s')
  {
    match e
    case Create(_, _, _, _) => CreateKeepsRows(c, w, e, id);
    case Submit(_, _, _, _, _) => SubmitEvolves(c, w, e, id);
    case Commitment(x, signer) => RecordStepEvolves(w, x, signer, Committed, id);
    case Share(x, signer) => RecordStepEvolves(w, x, signer, Shared, id);
    case Challenge(_, _, _, _) =>
    case Cleanup(_) =>
    case CleanupNonces(_) =>
    case PolicyOp(_) =>
  }

  // ---- Every step keeps the invariant ----

  lemma IdsFollow(s: SessionValue, s': SessionValue)
    requires Follows(s, s')
    ensures Ids(s'.participants) == Ids(s.participants)
  {
    var a, b := ParticipantIds(s.participants), ParticipantIds(s'.participants);
    assert |s.participants| == |s'.participants|;
    forall i | 0 <= i < |s.participants| ensures s'.participants[i].signerID == s.participants[i].signerID {
      assert a[i] == b[i];
    }
    forall x ensures x in Ids(s'.participants) <==> x in Ids(s.participants) {
      if x in Ids(s.participants) {
        var i :| 0 <= i < |s.participants| && s.participants[i].signerID == x;
        assert s'.participants[i].signerID == x;
      }
      if x in Ids(s'.participants) {
        var i :| 0 <= i < |s'.participants| && s'.participants[i].signerID == x;
        assert s.participants[i].signerID == x;
      }
    }
  }

  lemma {:induction false} RequiredAreActive(p: PolicyState.Policy, ids: seq<Bytes>)
    requires SelectionRefusal(p, ids).None?
    ensures forall id :: id in ids ==> id in p.ActiveIds()
  {
    if ids == [] {
    } else {
      RequiredAreActive(p, ids[1..]);
      forall id | id in ids ensures id in p.ActiveIds() {
        if id != ids[0] { assert id in ids[1..]; }
      }
    }
  }

  /** What a Create that opens a session adds to the table. */
  lemma OpeningAdds(c: Rules, w: World, e: Event)
    requires Legal(w, e) && Opens(c, w.state, e)
    ensures var id := Reply(c, w.state, e).value;
            var t, t' := w.state.table, Next(c, w.state, e).table;
            && e.drawn == Some(id) && t'.sessions.Keys == t.sessions.Keys + {id}
            && t'.sessions[id] ==
               FreshSession(c, w.state.policy.config.threshold, e.req, SelectedIds(e.req, e.listing), id, e.now)
            && (forall x :: x in SelectedIds(e.req, e.listing) ==> x in w.state.policy.ActiveIds())
  {
    RequiredAreActive(w.state.policy, e.req.requiredSigners);
  }

  lemma OpenedSessionOk(c: Rules, w: World, e: Event)
    requires w.state.policy.config.Valid() && Legal(w, e) && Opens(c, w.state, e)
    ensures SessionOk(Step(c, w, e), Reply(c, w.state, e).value)
  {
    var id := Reply(c, w.state, e).value;
    var ids := SelectedIds(e.req, e.listing);
    OpeningAdds(c, w, e);
    FreshSessionSound(c, w.state.policy.config.threshold, e.req, ids, id, e.now);
    NewParticipantsClear(ids);
  }

  /** Only a Create that opens a session adds a row. */
  lemma NewRowsAreOpened(c: Rules, w: World, e: Event, id: Bytes)
    requires Legal(w, e)
    ensures id in Next(c, w.state, e).table.sessions && id !in w.state.table.sessions ==>
              Opens(c, w.state, e) && Reply(c, w.state, e).value == id
  {
  }

  /** Only a submission past the deadline expires a session. */
  lemma ExpiredBySubmit(c: Rules, w: World, e: Event, id: Bytes)
    requires SessionOk(w, id) && Legal(w, e)
    requires id in w.state.table.sessions && id in Next(c, w.state, e).table.sessions
    requires w.state.table.sessions[id].status != SessionExpired
    requires Next(c, w.state, e).table.sessions[id].status == SessionExpired
    ensures e.Submit? && e.now > w.state.table.sessions[id].expiresAt
  {
    if e.Create? {
      CreateKeepsRows(c, w, e, id);
    }
  }

  lemma SurvivorOk(c: Rules, w: World, e: Event, id: Bytes)
    requires SessionOk(w, id) && Legal(w, e)
    requires id in w.state.table.sessions && id in Next(c, w.state, e).table.sessions
    ensures SessionOk(Step(c, w, e), id)
  {
    var s, s' := w.state.table.sessions[id], Next(c, w.state, e).table.sessions[id];
    StepEvolves(c, w, e, id);
    IdsFollow(s, s');
    if s'.status == SessionExpired && s.status != SessionExpired {
      ExpiredBySubmit(c, w, e, id);
    }
    assert Next(c, w.state, e).policy.config == w.state.policy.config;
    if Opens(c, w.state, e) {
      assert Reply(c, w.state, e).value != id;
    }
  }

  lemma StepKeepsIndexed(c: Rules, w: World, e: Event)
    requires TablesOk(c, w) && Legal(w, e)
    ensures Indexed(c.sha, Next(c, w.state, e).table)
  {
    match e
    case Create(req, listing, drawn, now) =>
      if drawn.Some? { assert SessionOk(w, drawn.value); }
      CreateKeepsIndex(c, w.state.table, w.state.policy, req, listing, drawn, now);
    case Submit(id, signer, doc, nonce, now) =>
      SubmitKeepsIndex(c, w.state.table, w.state.nonces, id, signer, doc, nonce, now);
    case Commitment(id, signer) => RecordKeepsIndex(c.sha, w.state.table, id, signer, Committed);
    case Share(id, signer) => RecordKeepsIndex(c.sha, w.state.table, id, signer, Shared);
    case Cleanup(now) => CleanKeepsIndex(c.sha, w.state.table, now);
    case Challenge(_, _, _, _) =>
    case CleanupNonces(_) =>
    case PolicyOp(_) =>
  }

  lemma StepKeepsTables(c: Rules, w: World, e: Event)
    requires TablesOk(c, w) && Legal(w, e)
    ensures TablesOk(c, Step(c, w, e))
  {
    StepKeepsIndexed(c, w, e);
    forall id ensures SessionOk(Step(c, w, e), id) {
      if id in Next(c, w.state, e).table.sessions {
        assert SessionOk(w, id);
        if id in w.state.table.sessions {
          SurvivorOk(c, w, e, id);
        } else {
          NewRowsAreOpened(c, w, e, id);
          OpenedSessionOk(c, w, e);
        }
      }
    }
  }

  lemma SubmitKeepsNonces(c: Rules, w: World, e: Event)
    requires NoncesOk(c, w) && Legal(w, e) && e.Submit?
    ensures NoncesOk(c, Step(c, w, e))
  {
    var m := w.state.nonces;
    assert Next(c, w.state, e).nonces ==
      if Happens(Consuming, c, w.state, e) then m[e.nonce := m[e.nonce].(used := true)] else m;
    if Happens(Accepting, c, w.state, e) {
      assert Passes(c.verifier, e.doc.value, e.nonce, e.now);
    }
  }

  lemma StepKeepsNonces(c: Rules, w: World, e: Event)
    requires NoncesOk(c, w) && Legal(w, e)
    ensures NoncesOk(c, Step(c, w, e))
  {
    if e.Submit? {
      SubmitKeepsNonces(c, w, e);
    }
  }

  /** A submission that is accepted was accepted for a nonce never accepted before. */
  lemma AcceptedNonceIsNew(c: Rules, w: World, e: Event)
    requires NoncesOk(c, w) && Happens(Accepting, c, w.state, e)
    ensures e.nonce !in w.history.accepted && e.doc.value.nonce == e.nonce
  {
  }

  lemma StepKeepsLinks(c: Rules, w: World, e: Event)
    requires TablesOk(c, w) && NoncesOk(c, w) && LinksOk(w) && Legal(w, e)
    ensures LinksOk(Step(c, w, e))
  {
    var w' := Step(c, w, e);
    forall id, signerID ensures StoredOk(w', id, signerID) {
      assert StoredOk(w, id, signerID) && SessionOk(w, id);
      StepKeepsStored(c, w, e, id, signerID);
    }
  }

  lemma StepKeepsStored(c: Rules, w: World, e: Event, id: Bytes, signerID: Bytes)
    requires NoncesOk(c, w) && Legal(w, e) && StoredOk(w, id, signerID) && SessionOk(w, id)
    ensures StoredOk(Step(c, w, e), id, signerID)
  {
    var t' := Next(c, w.state, e).table;
    if id in t'.sessions {
      if id !in w.state.table.sessions {
        NewRowsAreOpened(c, w, e, id);
        OpeningAdds(c, w, e);
      } else {
        AttestationsChange(c, w, e, id);
        if Happens(Accepting, c, w.state, e) {
          AcceptedNonceIsNew(c, w, e);
        }
      }
    }
  }

  lemma RecordKeepsAttestations(t: Table, x: Bytes, signerID: Bytes, f: Flag, id: Bytes)
    requires id in t.sessions
    ensures id in RecordIn(t, x, signerID, f).sessions
            && RecordIn(t, x, signerID, f).sessions[id].attestations == t.sessions[id].attestations
  {
  }

  lemma SubmitAttestations(c: Rules, w: World, e: Event, id: Bytes)
    requires e.Submit? && id in w.state.table.sessions
    ensures var t' := Next(c, w.state, e).table;
            id in t'.sessions && t'.sessions[id].attestations ==
            if Happens(Accepting, c, w.state, e) && e.id == id
            then w.state.table.sessions[id].attestations[e.signerID := e.doc.value]
            else w.state.table.sessions[id].attestations
  {
  }

  /** Stored documents change by accepted submissions only. */
  lemma AttestationsChange(c: Rules, w: World, e: Event, id: Bytes)
    requires SessionOk(w, id) && Legal(w, e)
    requires id in w.state.table.sessions && id in Next(c, w.state, e).table.sessions
    ensures Next(c, w.state, e).table.sessions[id].attestations ==
            if Happens(Accepting, c, w.state, e) && e.id == id
            then w.state.table.sessions[id].attestations[e.signerID := e.doc.value]
            else w.state.table.sessions[id].attestations
  {
    match e
    case Create(_, _, _, _) => CreateKeepsRows(c, w, e, id);
    case Commitment(x, signer) => RecordKeepsAttestations(w.state.table, x, signer, Committed, id);
    case Share(x, signer) => RecordKeepsAttestations(w.state.table, x, signer, Shared, id);
    case Submit(_, _, _, _, _) => SubmitAttestations(c, w, e, id);
    case Challenge(_, _, _, _) =>
    case Cleanup(_) =>
    case CleanupNonces(_) =>
    case PolicyOp(_) =>
  }

  lemma StepKeepsRequests(c: Rules, w: World, e: Event)
    requires TablesOk(c, w) && RequestsOk(w) && Legal(w, e)
    ensures RequestsOk(Step(c, w, e))
  {
    if e.Create? && Reply(c, w.state, e).Ok? {
      assert SessionOk(w, Reply(c, w.state, e).value);
    }
  }

  lemma StepKeepsInv(c: Rules, w: World, e: Event)
    requires Inv(c, w) && Legal(w, e)
    ensures Inv(c, Step(c, w, e))
  {
    StepKeepsTables(c, w, e);
    StepKeepsNonces(c, w, e);
    StepKeepsLinks(c, w, e);
    StepKeepsRequests(c, w, e);
  }

  lemma {:induction false} RunKeepsInv(c: Rules, w: World, es: seq<Event>)
    requires Inv(c, w) && LegalRun(c, w, es)
    ensures Inv(c, Run(c, w, es))
    decreases |es|
  {
    if es == [] {
    } else {
      StepKeepsInv(c, w, es[0]);
      RunKeepsInv(c, Step(c, w, es[0]), es[1..]);
    }
  }

  lemma StartInv(c: Rules, config: PolicyState.ThresholdConfig, now: int)
    requires config.Valid()
    ensures Inv(c, Start(config, now))
  {
  }

  // ---- Policy operations in a row ----

  function PolicyOps(ops: seq<PolicyState.Operation>): (es: seq<Event>)
    ensures |es| == |ops|
  {
    if ops == [] then [] else [PolicyOp(ops[0])] + PolicyOps(ops[1..])
  }

  lemma {:induction false} PolicyRun(c: Rules, w: World, ops: seq<PolicyState.Operation>)
    ensures LegalRun(c, w, PolicyOps(ops))
    ensures Run(c, w, PolicyOps(ops)) ==
            World(w.state.(policy := PolicyState.RunOps(w.state.policy, ops)), w.history)
    decreases |ops|
  {
    if ops == [] {
    } else {
      assert PolicyOps(ops)[1..] == PolicyOps(ops[1..]);
      assert Step(c, w, PolicyOp(ops[0])) ==
        World(w.state.(policy := PolicyState.Apply(w.state.policy, ops[0])), w.history);
      PolicyRun(c, Step(c, w, PolicyOp(ops[0])), ops[1..]);
    }
  }
}
