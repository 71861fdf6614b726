/** What is true of every reachable state of the coordinator. */
module Safety {
  import opened Basics
  import opened Attestation
  import opened PayloadKeys
  import opened Sessions
  import opened SessionOps
  import opened SessionLaws
  import opened Coordinator
  import opened Strings
  import Nonces
  import PolicyState

  /** The states reached by legal runs from an empty coordinator. */
  ghost predicate Reachable(c: Rules, w: World, config: PolicyState.ThresholdConfig, start: int, es: seq<Event>) {
    config.Valid() && LegalRun(c, Start(config, start), es) && w == Run(c, Start(config, start), es)
  }

  lemma ReachableInv(c: Rules, w: World, config: PolicyState.ThresholdConfig, start: int, es: seq<Event>)
    requires Reachable(c, w, config, start, es)
    ensures Inv(c, w)
  {
    StartInv(c, config, start);
    RunKeepsInv(c, Start(config, start), es);
  }

  lemma {:induction false} ConfigConstant(c: Rules, w: World, es: seq<Event>)
    ensures Run(c, w, es).state.policy.config == w.state.policy.config
    decreases |es|
  {
    if es == [] {
    } else {
      ConfigConstant(c, Step(c, w, es[0]), es[1..]);
    }
  }

  /** The stored document of a signer carries a nonce of the right length that was issued here and
      consumed in time; and at that moment it was neither too old nor more than a minute early,
      a path from its first certificate to a trusted root was validated, and it reported every
      expected register with the expected measurement. */
  ghost predicate ProperlyAttested(c: Rules, w: World, d: Document) {
    var h, v := w.history, c.verifier;
    && d.nonce in h.issued && d.nonce in h.consumed
    && h.issued[d.nonce] <= h.consumed[d.nonce] <= h.issued[d.nonce] + c.nonceMaxAge
    && var at := h.consumed[d.nonce];
       && |d.nonce| == v.nonceLength
       && at - v.maxAge <= d.timestamp <= at + 60_000_000_000
       && |d.certChain| > 0
       && v.pathOk(d.certChain[0], v.roots, set i | 1 <= i < |d.certChain| :: d.certChain[i], at)
       && (forall i :: i in v.expectedPCRs ==> i in d.pcrs && d.pcrs[i] == v.expectedPCRs[i])
  }

  lemma PassingIsProper(c: Rules, w: World, d: Document)
    requires NoncesOk(c, w) && d.nonce in w.history.accepted && w.history.accepted[d.nonce].doc == d
    ensures ProperlyAttested(c, w, d)
  {
    var at := w.history.consumed[d.nonce];
    ChecksMean(c.verifier, d, d.nonce, at);
    forall i | i in c.verifier.expectedPCRs ensures i in d.pcrs && d.pcrs[i] == c.verifier.expectedPCRs[i] {
      assert Measured(c.verifier, d, i);
    }
  }

  /** In every reachable state a complete session has exactly Threshold distinct signers with a
      share recorded; each was active in the policy when the session was created and holds a
      stored document that passed all checks; and their nonces are pairwise distinct. */
  lemma CompleteMeansAttested(c: Rules, w: World, config: PolicyState.ThresholdConfig, start: int,
                              es: seq<Event>, id: Bytes)
    requires Reachable(c, w, config, start, es)
    requires id in w.state.table.sessions && w.state.table.sessions[id].status == SessionComplete
    ensures var s := w.state.table.sessions[id];
            var sharers := Flagged(s.participants, Shared);
            && |sharers| == config.threshold
            && id in w.history.activeAt && sharers <= w.history.activeAt[id]
            && (forall x :: x in sharers ==> x in s.attestations && ProperlyAttested(c, w, s.attestations[x]))
            && (forall x, y :: x in sharers && y in sharers && x != y ==>
                  s.attestations[x].nonce != s.attestations[y].nonce)
  {
    ReachableInv(c, w, config, start, es);
    ConfigConstant(c, Start(config, start), es);
    var s := w.state.table.sessions[id];
    assert SessionOk(w, id);
    StatusMeaning(s);
    FlaggedAreIds(s.participants, Shared);
    forall x | x in Flagged(s.participants, Shared)
      ensures x in s.attestations && ProperlyAttested(c, w, s.attestations[x])
    {
      assert StoredOk(w, id, x);
      PassingIsProper(c, w, s.attestations[x]);
    }
    forall x, y | x in s.attestations && y in s.attestations && x != y
      ensures s.attestations[x].nonce != s.attestations[y].nonce
    {
      assert StoredOk(w, id, x) && StoredOk(w, id, y);
    }
  }

  /** In every reachable state the status of a session that has not expired is the one its
      numbers of distinct flagged signers determine, and the stored documents are exactly those
      of the attested signers. */
  lemma StatusFollowsFlags(c: Rules, w: World, config: PolicyState.ThresholdConfig, start: int,
                           es: seq<Event>, id: Bytes)
    requires Reachable(c, w, config, start, es)
    requires id in w.state.table.sessions && w.state.table.sessions[id].status != SessionExpired
    ensures var s := w.state.table.sessions[id];
            var t := config.threshold;
            var a := |Flagged(s.participants, Attested)|;
            var m, h := |Flagged(s.participants, Committed)|, |Flagged(s.participants, Shared)|;
            && (s.status == SessionAttesting <==> a < t)
            && (s.status == SessionCommit <==> a >= t && m < t)
            && (s.status == SessionSign <==> m == t && h < t)
            && (s.status == SessionComplete <==> m == t && h == t)
            && s.attestations.Keys == Flagged(s.participants, Attested)
            && FirstOnly(s.participants)
            && (forall f :: Count(s.participants, f) == |Flagged(s.participants, f)|)
  {
    ReachableInv(c, w, config, start, es);
    ConfigConstant(c, Start(config, start), es);
    var s := w.state.table.sessions[id];
    assert SessionOk(w, id);
    StatusMeaning(s);
    forall f ensures Count(s.participants, f) == |Flagged(s.participants, f)| {
      CountIsDistinct(s.participants, f);
    }
  }

  /** In every reachable state the sharers of a session with no more distinct signers than the
      threshold are among its committers. */
  lemma FewSignersOneTeam(c: Rules, w: World, config: PolicyState.ThresholdConfig, start: int,
                          es: seq<Event>, id: Bytes)
    requires Reachable(c, w, config, start, es)
    requires id in w.state.table.sessions && |Ids(w.state.table.sessions[id].participants)| <= config.threshold
    ensures SharersCommitted(w.state.table.sessions[id])
  {
    ReachableInv(c, w, config, start, es);
    ConfigConstant(c, Start(config, start), es);
    assert SessionOk(w, id);
    FewSignersShareCommitted(w.state.table.sessions[id]);
  }

  /** In every reachable state at most one session per payload key is neither expired nor
      failed: it is the one the payload index names. */
  lemma OneLiveSessionPerKey(c: Rules, w: World, config: PolicyState.ThresholdConfig, start: int,
                             es: seq<Event>, id: Bytes)
    requires Reachable(c, w, config, start, es)
    requires id in w.state.table.sessions && InFlight(w.state.table.sessions[id])
    ensures var t := w.state.table;
            var key := KeyOf(c.sha, t.sessions[id]);
            && key in t.byPayload && t.byPayload[key] == id
            && (forall x :: x in t.sessions && InFlight(t.sessions[x]) && KeyOf(c.sha, t.sessions[x]) == key ==>
                  x == id)
            && Injective(t.byPayload) && (forall k :: k in t.byPayload ==> t.byPayload[k] in t.sessions)
  {
    ReachableInv(c, w, config, start, es);
    var t := w.state.table;
    forall x | x in t.sessions && InFlight(t.sessions[x]) && KeyOf(c.sha, t.sessions[x]) == KeyOf(c.sha, t.sessions[id])
      ensures x == id
    {
      OneInFlightPerKey(c.sha, t, x, id);
    }
    IndexInjective(c.sha, t);
  }

  // ---- Nonces across sessions ----

  /** Across all sessions no two stored documents carry one nonce. */
  lemma StoredNoncesInjective(c: Rules, w: World, config: PolicyState.ThresholdConfig, start: int, es: seq<Event>,
                              id: Bytes, x: Bytes, id': Bytes, x': Bytes)
    requires Reachable(c, w, config, start, es)
    requires var t := w.state.table;
             && id in t.sessions && x in t.sessions[id].attestations
             && id' in t.sessions && x' in t.sessions[id'].attestations
             && t.sessions[id].attestations[x].nonce == t.sessions[id'].attestations[x'].nonce
    ensures id == id' && x == x'
  {
    ReachableInv(c, w, config, start, es);
    assert StoredOk(w, id, x) && StoredOk(w, id', x');
  }

  /** How often a kind of nonce event happens in a run. */
  ghost function Tally(k: Kind, c: Rules, w: World, es: seq<Event>): nat
    decreases |es|
  {
    if es == [] then 0
    else (if Happens(k, c, w.state, es[0]) then 1 else 0) + Tally(k, c, Step(c, w, es[0]), es[1..])
  }

  ghost function Logged(k: Kind, h: History): nat {
    match k
    case Issuing => |h.issued|
    case Consuming => |h.consumed|
    case Accepting => |h.accepted|
  }

  /** The events the history logs are pairwise different. */
  lemma StepLogs(k: Kind, c: Rules, w: World, e: Event)
    requires Inv(c, w) && Legal(w, e)
    ensures Logged(k, Step(c, w, e).history) == Logged(k, w.history) + (if Happens(k, c, w.state, e) then 1 else 0)
  {
  }

  lemma {:induction false} TallyIsLogged(k: Kind, c: Rules, w: World, es: seq<Event>)
    requires Inv(c, w) && LegalRun(c, w, es)
    ensures Logged(k, Run(c, w, es).history) == Logged(k, w.history) + Tally(k, c, w, es)
    decreases |es|
  {
    if es == [] {
    } else {
      StepLogs(k, c, w, es[0]);
      StepKeepsInv(c, w, es[0]);
      TallyIsLogged(k, c, Step(c, w, es[0]), es[1..]);
    }
  }

  lemma LogSizes(c: Rules, w: World)
    requires NoncesOk(c, w)
    ensures |w.history.accepted| <= |w.history.consumed| <= |w.history.issued|
  {
    var h := w.history;
    SubsetSize(h.accepted.Keys, h.consumed.Keys);
    SubsetSize(h.consumed.Keys, h.issued.Keys);
    assert |h.accepted.Keys| == |h.accepted| && |h.consumed.Keys| == |h.consumed| && |h.issued.Keys| == |h.issued|;
  }

  /** In every run: successful submissions <= nonces consumed <= nonces issued. */
  lemma NoncesConserved(c: Rules, config: PolicyState.ThresholdConfig, start: int, es: seq<Event>)
    requires config.Valid() && LegalRun(c, Start(config, start), es)
    ensures var w := Start(config, start);
            Tally(Accepting, c, w, es) <= Tally(Consuming, c, w, es) <= Tally(Issuing, c, w, es)
  {
    var w := Start(config, start);
    StartInv(c, config, start);
    RunKeepsInv(c, w, es);
    TallyIsLogged(Accepting, c, w, es);
    TallyIsLogged(Consuming, c, w, es);
    TallyIsLogged(Issuing, c, w, es);
    LogSizes(c, Run(c, w, es));
  }

  lemma {:induction false} ConsumedForGood(c: Rules, w: World, es: seq<Event>, nonce: Bytes)
    requires nonce in w.history.consumed
    ensures nonce in Run(c, w, es).history.consumed
    decreases |es|
  {
    if es == [] {
    } else {
      ConsumedForGood(c, Step(c, w, es[0]), es[1..], nonce);
    }
  }

  /** A nonce that the history knows as consumed is refused and left alone. */
  lemma ConsumedRefused(c: Rules, w: World, replay: Event)
    requires NoncesOk(c, w) && replay.Submit? && replay.nonce in w.history.consumed
    ensures Reply(c, w.state, replay).Err? && Next(c, w.state, replay).nonces == w.state.nonces
  {
    assert !Nonces.Judge(w.state.nonces, c.nonceMaxAge, replay.nonce, replay.now).Accepted?;
  }

  /** A nonce that was ever consumed, by an accepted submission or by one whose document then
      failed verification, is refused for ever after, for every session, signer and document,
      through any calls including the clean-up of the nonce store. */
  lemma ReplayRefused(c: Rules, w: World, e: Event, es: seq<Event>, replay: Event)
    requires Inv(c, w) && Legal(w, e) && Happens(Consuming, c, w.state, e)
    requires LegalRun(c, Step(c, w, e), es)
    requires replay.Submit? && replay.nonce == e.nonce
    ensures var s := Run(c, Step(c, w, e), es).state;
            Reply(c, s, replay).Err? && Next(c, s, replay).nonces == s.nonces
  {
    var w' := Step(c, w, e);
    StepKeepsInv(c, w, e);
    RunKeepsInv(c, w', es);
    ConsumedForGood(c, w', es, e.nonce);
    ConsumedRefused(c, Run(c, w', es), replay);
  }

  // ---- Opening a session ----

  lemma {:induction false} SelectionRefusedIff(p: PolicyState.Policy, ids: seq<Bytes>)
    ensures SelectionRefusal(p, ids).None? <==> forall id :: id in ids ==> id in p.ActiveIds()
  {
    if ids == [] {
    } else {
      SelectionRefusedIff(p, ids[1..]);
      if SelectionRefusal(p, ids).None? {
        RequiredAreActive(p, ids);
      } else if ids[0] in p.ActiveIds() {
        assert SelectionRefusal(p, ids[1..]).Some?;
        var id :| id in ids[1..] && id !in p.ActiveIds();
        assert id in ids;
      }
    }
  }

  /** CreateSession succeeds exactly when the request ID is bound to a session, or all required
      signers are active, there are participants enough, repetitions counted, and either a
      session is in flight for them or a session ID can be drawn. A refusal changes nothing. */
  lemma CreateSucceedsIff(c: Rules, w: World, e: Event)
    requires e.Create?
    ensures var t, ids := w.state.table, SelectedIds(e.req, e.listing);
            Reply(c, w.state, e).Ok? <==>
            || Bound(t, e.req.requestID).Some?
            || ((forall id :: id in e.req.requiredSigners ==> id in w.state.policy.ActiveIds())
                && |ids| >= w.state.policy.config.threshold
                && (Reusable(t, RequestKey(c, e.req, ids)).Some? || e.drawn.Some?))
    ensures Reply(c, w.state, e).Err? ==> Next(c, w.state, e) == w.state
  {
    SelectionRefusedIff(w.state.policy, e.req.requiredSigners);
  }

  /** A session that CreateSession opens is untouched, carries the request's payload, policy's
      threshold and a deadline one timeout away, and its signers are the required ones, or all
      active signers if none are required. */
  lemma OpenedSessionMeans(c: Rules, w: World, e: Event)
    requires Inv(c, w) && Legal(w, e)
    ensures Opens(c, w.state, e) ==>
            var id, t' := Reply(c, w.state, e).value, Next(c, w.state, e).table;
            && id in t'.sessions
            && var s := t'.sessions[id];
               && Sound(s) && s.status == SessionAttesting && (forall f :: Flagged(s.participants, f) == {})
               && s.id == id && s.payloadHash == e.req.payloadHash
               && s.threshold == w.state.policy.config.threshold <= |s.participants|
               && s.createdAt == e.now && s.expiresAt == e.now + c.timeout
               && Ids(s.participants) == (if e.req.requiredSigners != [] then set x | x in e.req.requiredSigners
                                          else w.state.policy.ActiveIds())
               && (e.req.requiredSigners != [] ==> ParticipantIds(s.participants) == e.req.requiredSigners)
               && (e.req.requiredSigners == [] ==> Lists(ParticipantIds(s.participants), w.state.policy.ActiveIds()))
               && (forall p :: p in s.participants ==> p.attestationTime == 0) && s.attestations == map[]
               && Bound(t', e.req.requestID) == Some(id)
  {
    if Opens(c, w.state, e) {
      OpeningAdds(c, w, e);
      NewParticipantsClear(SelectedIds(e.req, e.listing));
      OpenedSessionOk(c, w, e);
      assert ParticipantIds(NewParticipants(SelectedIds(e.req, e.listing))) == SelectedIds(e.req, e.listing);
      if e.req.requiredSigners == [] {
        assert (set x | x in e.listing) == w.state.policy.ActiveIds();
      }
    }
  }

  // ---- One session over time ----

  /** A session ID that has been drawn and is not in the table never returns to it. */
  lemma {:induction false} GoneForGood(c: Rules, w: World, es: seq<Event>, id: Bytes)
    requires Inv(c, w) && LegalRun(c, w, es)
    requires id in w.history.drawnIds && id !in w.state.table.sessions
    ensures id !in Run(c, w, es).state.table.sessions
    decreases |es|
  {
    if es == [] {
    } else {
      var w' := Step(c, w, es[0]);
      if id in w'.state.table.sessions {
        NewRowsAreOpened(c, w, es[0], id);
      }
      StepKeepsInv(c, w, es[0]);
      GoneForGood(c, w', es[1..], id);
    }
  }

  /** Between two moments of a run at which it is in the table, a session has evolved: its
      status has not gone back, no flag was lost, and once expired it is frozen. */
  lemma {:induction false} SessionsEvolve(c: Rules, w: World, es: seq<Event>, id: Bytes)
    requires Inv(c, w) && LegalRun(c, w, es)
    requires id in w.state.table.sessions && id in Run(c, w, es).state.table.sessions
    ensures Evolves(w.state.table.sessions[id], Run(c, w, es).state.table.sessions[id])
    decreases |es|
  {
    assert SessionOk(w, id);
    if es == [] {
    } else {
      var w' := Step(c, w, es[0]);
      StepKeepsInv(c, w, es[0]);
      if id !in w'.state.table.sessions {
        GoneForGood(c, w', es[1..], id);
      } else {
        StepEvolves(c, w, es[0], id);
        SessionsEvolve(c, w', es[1..], id);
        EvolvesTransitive(w.state.table.sessions[id], w'.state.table.sessions[id],
                          Run(c, w, es).state.table.sessions[id]);
      }
    }
  }

  /** Only CleanupExpired takes a session out of the table, and only past its deadline. */
  lemma OnlyCleanupRemoves(c: Rules, w: World, e: Event, id: Bytes)
    requires Inv(c, w) && Legal(w, e)
    requires id in w.state.table.sessions
    ensures id !in Next(c, w.state, e).table.sessions <==> e.Cleanup? && e.now > w.state.table.sessions[id].expiresAt
  {
    assert SessionOk(w, id);
    if e.Create? {
      CreateKeepsRows(c, w, e, id);
    }
  }

  // ---- Request IDs ----

  /** The session a bound request ID resolves to is what CreateSession answers. */
  ghost predicate BoundTo(t: Table, requestID: Bytes, id: Bytes) {
    requestID in t.requestIndex && t.requestIndex[requestID] == id
  }

  lemma OpenBinds(c: Rules, t: Table, threshold: int, req: Request, ids: seq<Bytes>, key: Bytes,
                  drawn: Option<Bytes>, now: int)
    ensures var r, t' := OpenAnswer(t, threshold, ids, key, drawn), OpenIn(c, t, threshold, req, ids, key, drawn, now);
            r.Ok? ==> r.value in t'.sessions && BoundTo(t', req.requestID, r.value)
  {
  }

  /** Whenever CreateSession succeeds, whether with a bound, a reused or a new session, the request
      ID is bound to the session it answers with. */
  lemma SuccessBinds(c: Rules, w: World, e: Event)
    requires Inv(c, w) && Legal(w, e) && e.Create?
    ensures Reply(c, w.state, e).Ok? ==>
              var id, t' := Reply(c, w.state, e).value, Next(c, w.state, e).table;
              id in t'.sessions && BoundTo(t', e.req.requestID, id)
              && Bound(t', e.req.requestID) == Some(id)
  {
    var ids := SelectedIds(e.req, e.listing);
    OpenBinds(c, w.state.table, w.state.policy.config.threshold, e.req, ids, RequestKey(c, e.req, ids), e.drawn, e.now);
  }

  lemma StepKeepsBinding(c: Rules, w: World, e: Event, requestID: Bytes, id: Bytes)
    requires Legal(w, e) && BoundTo(w.state.table, requestID, id)
    requires id in w.state.table.sessions || !(e.Create? && e.req.requestID == requestID)
    ensures BoundTo(Next(c, w.state, e).table, requestID, id)
  {
  }

  /** Once bound to a session in the table, a request ID is answered with that session through
      any interleaved calls, for as long as the session stays in the table. */
  lemma {:induction false} BindingLasts(c: Rules, w: World, es: seq<Event>, requestID: Bytes, id: Bytes, again: Event)
    requires Inv(c, w) && LegalRun(c, w, es)
    requires BoundTo(w.state.table, requestID, id) && id in w.state.table.sessions
    requires id in Run(c, w, es).state.table.sessions
    requires again.Create? && again.req.requestID == requestID
    ensures BoundTo(Run(c, w, es).state.table, requestID, id)
    ensures Reply(c, Run(c, w, es).state, again) == Ok(id)
    decreases |es|
  {
    if es == [] {
    } else {
      var w' := Step(c, w, es[0]);
      assert SessionOk(w, id);
      StepKeepsInv(c, w, es[0]);
      StepKeepsBinding(c, w, es[0], requestID, id);
      if id !in w'.state.table.sessions {
        GoneForGood(c, w', es[1..], id);
      } else {
        BindingLasts(c, w', es[1..], requestID, id, again);
      }
    }
  }

  /** A CreateSession that succeeds is repeated by every later one with the same request ID, through
      any calls in between and whatever has become of the signers, while the session is there. */
  lemma AnswerRepeats(c: Rules, w: World, e: Event, es: seq<Event>, again: Event)
    requires Inv(c, w) && Legal(w, e) && e.Create? && Reply(c, w.state, e).Ok?
    requires LegalRun(c, Step(c, w, e), es)
    requires again.Create? && again.req.requestID == e.req.requestID
    ensures var id, s' := Reply(c, w.state, e).value, Run(c, Step(c, w, e), es).state;
            id in s'.table.sessions ==> Reply(c, s', again) == Ok(id) && Next(c, s', again) == s'
  {
    var id := Reply(c, w.state, e).value;
    SuccessBinds(c, w, e);
    StepKeepsInv(c, w, e);
    if id in Run(c, Step(c, w, e), es).state.table.sessions {
      BindingLasts(c, Step(c, w, e), es, e.req.requestID, id, again);
    }
  }

  /** A binding whose session is gone resolves to nothing, whatever happens, until a CreateSession
      for that very request ID. */
  lemma {:induction false} StaleBindingUnresolved(c: Rules, w: World, es: seq<Event>, requestID: Bytes)
    requires Inv(c, w) && LegalRun(c, w, es)
    requires requestID in w.state.table.requestIndex && Bound(w.state.table, requestID).None?
    requires forall e :: e in es ==> !(e.Create? && e.req.requestID == requestID)
    ensures Bound(Run(c, w, es).state.table, requestID).None?
    decreases |es|
  {
    if es == [] {
    } else {
      var w' := Step(c, w, es[0]);
      var id := w.state.table.requestIndex[requestID];
      assert es[0] in es;
      StepKeepsInv(c, w, es[0]);
      StepKeepsBinding(c, w, es[0], requestID, id);
      if id in w'.state.table.sessions {
        NewRowsAreOpened(c, w, es[0], id);
      }
      forall e | e in es[1..] ensures !(e.Create? && e.req.requestID == requestID) { assert e in es; }
      StaleBindingUnresolved(c, w', es[1..], requestID);
    }
  }

  /** The session CreateSession answers with is for the requested payload, absent a collision
      between the two key inputs, exactly when the request ID is not bound to a session for
      another payload: a repeated request ID is answered without comparing payloads. */
  lemma AnsweredPayload(c: Rules, w: World, config: PolicyState.ThresholdConfig, start: int, es: seq<Event>, e: Event)
    requires Reachable(c, w, config, start, es)
    requires e.Create? && Legal(w, e) && Reply(c, w.state, e).Ok?
    ensures var t, t', id := w.state.table, Next(c, w.state, e).table, Reply(c, w.state, e).value;
            && id in t'.sessions
            && var s := t'.sessions[id];
               var bound := Bound(t, e.req.requestID);
               var input := KeyInput(s.payloadHash, ParticipantIds(s.participants));
               || (s.payloadHash == e.req.payloadHash <==>
                   (bound.Some? ==> t.sessions[bound.value].payloadHash == e.req.payloadHash))
               || Collide(c.sha, input, KeyInput(e.req.payloadHash, SelectedIds(e.req, e.listing)))
  {
    ReachableInv(c, w, config, start, es);
    var t, t', id := w.state.table, Next(c, w.state, e).table, Reply(c, w.state, e).value;
    var bound := Bound(t, e.req.requestID);
    var ids := SelectedIds(e.req, e.listing);
    var key := RequestKey(c, e.req, ids);
    if bound.None? && Reusable(t, key).Some? {
      var s := t.sessions[id];
      assert KeyOf(c.sha, t.sessions[t.byPayload[key]]) == key;
      KeyIdentifies(c.sha, s.payloadHash, ParticipantIds(s.participants), e.req.payloadHash, ids);
    }
  }
}
