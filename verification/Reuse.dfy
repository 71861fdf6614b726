/** Which session CreateSession answers with, and what that session is still good for. */
module Reuse {
  import opened Basics
  import opened PayloadKeys
  import opened Sessions
  import opened SessionOps
  import opened SessionLaws
  import opened Coordinator
  import opened Safety
  import opened Strings
  import PolicyState

  /** The key under which a request looks for a session to reuse. */
  function KeyFor(c: Rules, e: Event): Bytes
    requires e.Create?
  {
    RequestKey(c, e.req, SelectedIds(e.req, e.listing))
  }

  /** The request is not bound, its signers may take part, and they are enough. */
  ghost predicate Admitted(w: World, e: Event) {
    && e.Create? && Bound(w.state.table, e.req.requestID).None?
    && SelectionRefusal(w.state.policy, e.req.requiredSigners).None?
    && |SelectedIds(e.req, e.listing)| >= w.state.policy.config.threshold
  }

  /** The session is for the payload and the signers, with multiplicity, that are asked for. */
  ghost predicate SessionFor(s: SessionValue, e: Event)
    requires e.Create?
  {
    && s.payloadHash == e.req.payloadHash
    && multiset(ParticipantIds(s.participants)) == multiset(SelectedIds(e.req, e.listing))
  }

  // ---- Which session is reused ----

  lemma InFlightReusable(h: Sha, t: Table, key: Bytes, id: Bytes)
    requires Indexed(h, t) && id in t.sessions && KeyOf(h, t.sessions[id]) == key
    ensures InFlight(t.sessions[id]) <==> Reusable(t, key) == Some(id)
  {
  }

  /** An admitted request is answered with an existing session under its key exactly if that
      session is in flight, and in particular if it is complete or overdue. No row changes. */
  lemma ReusedIff(c: Rules, w: World, e: Event, id: Bytes)
    requires Inv(c, w) && Legal(w, e) && Admitted(w, e)
    requires id in w.state.table.sessions && KeyOf(c.sha, w.state.table.sessions[id]) == KeyFor(c, e)
    ensures Reply(c, w.state, e) == Ok(id) <==> InFlight(w.state.table.sessions[id])
    ensures Reply(c, w.state, e) == Ok(id) ==> Next(c, w.state, e).table.sessions == w.state.table.sessions
  {
    assert SessionOk(w, id);
    InFlightReusable(c.sha, w.state.table, KeyFor(c, e), id);
  }

  /** A request for the payload and the signers of a complete session is answered with it; no
      commitment or share can then be recorded for the request. */
  lemma CompleteSessionReused(c: Rules, w: World, e: Event, id: Bytes)
    requires Inv(c, w) && Legal(w, e) && Admitted(w, e)
    requires id in w.state.table.sessions && w.state.table.sessions[id].status == SessionComplete
    requires SessionFor(w.state.table.sessions[id], e)
    ensures Reply(c, w.state, e) == Ok(id)
    ensures var t' := Next(c, w.state, e).table;
            forall signerID, f :: f != Attested ==> RecordAnswer(t', id, signerID, f) == Err(ErrWrongPhase)
  {
    var s := w.state.table.sessions[id];
    KeyIgnoresOrder(c.sha, s.payloadHash, ParticipantIds(s.participants), SelectedIds(e.req, e.listing));
    ReusedIff(c, w, e, id);
  }

  // ---- Whether the answered session can still be used ----

  /** The deadline of the session that will be answered, read from the table before the call. */
  function AnsweredDeadline(c: Rules, t: Table, e: Event): int
    requires e.Create?
  {
    var bound, reusable := Bound(t, e.req.requestID), Reusable(t, KeyFor(c, e));
    if bound.Some? then t.sessions[bound.value].expiresAt
    else if reusable.Some? then t.sessions[reusable.value].expiresAt
    else e.now + c.timeout
  }

  lemma AnsweredRow(c: Rules, w: World, e: Event)
    requires Inv(c, w) && e.Create? && Legal(w, e) && Reply(c, w.state, e).Ok?
    ensures var id, t' := Reply(c, w.state, e).value, Next(c, w.state, e).table;
            id in t'.sessions && t'.sessions[id].expiresAt == AnsweredDeadline(c, w.state.table, e)
  {
    if Reply(c, w.state, e).value in w.state.table.sessions {
      assert SessionOk(w, Reply(c, w.state, e).value);
      CreateKeepsRows(c, w, e, Reply(c, w.state, e).value);
    } else {
      OpeningAdds(c, w, e);
    }
  }

  /** A session in time is neither expired nor failed. */
  lemma InTimeInFlight(w: World, id: Bytes, now: int)
    requires SessionOk(w, id) && id in w.state.table.sessions
    requires w.history.now <= now <= w.state.table.sessions[id].expiresAt
    ensures InFlight(w.state.table.sessions[id])
  {
  }

  /** At the very instant of the answer, the session answered can be fetched, and takes a
      participant's submission, exactly if that deadline has not passed, and is in flight then.
      A bound or reused session may be overdue; a new one is in time unless the timeout is
      negative. */
  lemma AnsweredUsableIff(c: Rules, w: World, config: PolicyState.ThresholdConfig, start: int, es: seq<Event>, e: Event)
    requires Reachable(c, w, config, start, es)
    requires e.Create? && Legal(w, e) && Reply(c, w.state, e).Ok?
    ensures var id, t' := Reply(c, w.state, e).value, Next(c, w.state, e).table;
            var inTime := e.now <= AnsweredDeadline(c, w.state.table, e);
            && id in t'.sessions
            && GetAnswer(t', id, e.now) == (if inTime then Ok(id) else Err(ErrSessionExpired))
            && (inTime ==> InFlight(t'.sessions[id]) && Sound(t'.sessions[id]))
            && (forall signerID :: EntryRefusal(t', id, signerID, e.now).None? <==>
                                   inTime && signerID in Ids(t'.sessions[id].participants))
    ensures Opens(c, w.state, e) ==> (e.now <= AnsweredDeadline(c, w.state.table, e) <==> c.timeout >= 0)
  {
    ReachableInv(c, w, config, start, es);
    AnsweredRow(c, w, e);
    var id, t' := Reply(c, w.state, e).value, Next(c, w.state, e).table;
    StepKeepsInv(c, w, e);
    assert SessionOk(Step(c, w, e), id);
    if e.now <= t'.sessions[id].expiresAt {
      InTimeInFlight(Step(c, w, e), id, e.now);
    }
    forall signerID
      ensures EntryRefusal(t', id, signerID, e.now).None? <==>
              e.now <= t'.sessions[id].expiresAt && signerID in Ids(t'.sessions[id].participants)
    {
      TakesIsMember(t'.sessions[id], signerID);
    }
  }

  /** `again` repeats the request `e` under an ID of its own. */
  ghost predicate SameJob(e: Event, again: Event) {
    && e.Create? && again.Create? && again.req.requestID != e.req.requestID
    && again.req.payloadHash == e.req.payloadHash
  }

  /** What must hold for `again` to be called next. */
  ghost predicate MayFollow(w: World, e: Event, again: Event) {
    && SameJob(e, again)
    && e.now <= again.now && again.drawn.None? && Lists(again.listing, w.state.policy.ActiveIds())
    && Bound(w.state.table, again.req.requestID).None?
  }

  lemma FollowerAdmitted(c: Rules, w: World, e: Event, again: Event)
    requires Inv(c, w) && Legal(w, e) && Opens(c, w.state, e) && MayFollow(w, e, again)
    requires SelectionRefusal(w.state.policy, again.req.requiredSigners).None?
    requires |SelectedIds(again.req, again.listing)| >= w.state.policy.config.threshold
    ensures Inv(c, Step(c, w, e)) && Legal(Step(c, w, e), again) && Admitted(Step(c, w, e), again)
    ensures LegalRun(c, w, [e, again])
  {
    StepKeepsInv(c, w, e);
    OpeningAdds(c, w, e);
    var t, t' := w.state.table, Next(c, w.state, e).table;
    assert Bound(t', again.req.requestID).None? by {
      if again.req.requestID in t.requestIndex {
        assert t'.requestIndex[again.req.requestID] == t.requestIndex[again.req.requestID];
        assert t.requestIndex[again.req.requestID] in w.history.drawnIds;
      }
    }
    assert [e, again][1..] == [again] && [again][1..] == [];
  }

  /** The session just opened is under the key of its own request. */
  lemma OpenedKey(c: Rules, w: World, e: Event)
    requires Legal(w, e) && Opens(c, w.state, e)
    ensures var id, t' := Reply(c, w.state, e).value, Next(c, w.state, e).table;
            && id in t'.sessions && KeyOf(c.sha, t'.sessions[id]) == KeyFor(c, e)
            && InFlight(t'.sessions[id]) && t'.sessions[id].expiresAt == e.now + c.timeout
            && Ids(t'.sessions[id].participants) == Elements(SelectedIds(e.req, e.listing))
            && ParticipantIds(t'.sessions[id].participants) == SelectedIds(e.req, e.listing)
            && t'.sessions[id].payloadHash == e.req.payloadHash
  {
    OpeningAdds(c, w, e);
    var ids := SelectedIds(e.req, e.listing);
    assert ParticipantIds(NewParticipants(ids)) == ids;
    FreshKey(c, w.state.policy.config.threshold, e.req, ids, Reply(c, w.state, e).value, e.now);
    NewParticipantsClear(ids);
  }

  /** A request under the key of the session just opened is answered with it. */
  lemma FollowerAnswered(c: Rules, w: World, e: Event, again: Event)
    requires Inv(c, w) && Legal(w, e) && Opens(c, w.state, e) && MayFollow(w, e, again)
    requires SelectionRefusal(w.state.policy, again.req.requiredSigners).None?
    requires |SelectedIds(again.req, again.listing)| >= w.state.policy.config.threshold
    requires KeyFor(c, again) == KeyFor(c, e)
    ensures LegalRun(c, w, [e, again])
    ensures var id, s1 := Reply(c, w.state, e).value, Next(c, w.state, e);
            var t2 := Next(c, s1, again).table;
            && Reply(c, s1, again) == Ok(id)
            && id in t2.sessions && t2.sessions[id].expiresAt == e.now + c.timeout
            && Ids(t2.sessions[id].participants) == Elements(SelectedIds(e.req, e.listing))
            && ParticipantIds(t2.sessions[id].participants) == SelectedIds(e.req, e.listing)
            && t2.sessions[id].payloadHash == e.req.payloadHash
  {
    FollowerAdmitted(c, w, e, again);
    OpenedKey(c, w, e);
    ReusedIff(c, Step(c, w, e), again, Reply(c, w.state, e).value);
  }

  /** A session that is opened, never used, and asked for again after its deadline under another
      request ID: the answer is the overdue session, which cannot be fetched then. */
  lemma OverdueSessionReused(c: Rules, w: World, e: Event, again: Event)
    requires Inv(c, w) && Legal(w, e) && Opens(c, w.state, e) && MayFollow(w, e, again)
    requires again.req.requiredSigners == e.req.requiredSigners && again.listing == e.listing
    requires again.now > e.now + c.timeout
    ensures LegalRun(c, w, [e, again])
    ensures var id, s1 := Reply(c, w.state, e).value, Next(c, w.state, e);
            && Reply(c, s1, again) == Ok(id)
            && GetAnswer(Next(c, s1, again).table, id, again.now) == Err(ErrSessionExpired)
  {
    FollowerAnswered(c, w, e, again);
  }

  // ---- Whose session is answered ----

  /** Participants never leave the policy, and are as many as the threshold, repetitions counted. */
  ghost predicate Manned(w: World, id: Bytes) {
    id in w.state.table.sessions ==>
      && Ids(w.state.table.sessions[id].participants) <= w.state.policy.signers.Keys
      && |w.state.table.sessions[id].participants| >= w.state.policy.config.threshold
  }

  ghost predicate AllManned(w: World) {
    forall id :: Manned(w, id)
  }

  lemma EnrolledStay(c: Rules, s: State, e: Event)
    ensures s.policy.signers.Keys <= Next(c, s, e).policy.signers.Keys
  {
  }

  lemma FollowerManned(s: SessionValue, s': SessionValue)
    requires Follows(s, s')
    ensures Ids(s'.participants) == Ids(s.participants) && |s'.participants| == |s.participants|
  {
    IdsFollow(s, s');
    assert |ParticipantIds(s'.participants)| == |ParticipantIds(s.participants)|;
  }

  lemma OpenedManned(c: Rules, w: World, e: Event)
    requires Legal(w, e) && Opens(c, w.state, e)
    ensures Manned(Step(c, w, e), Reply(c, w.state, e).value)
  {
    OpeningAdds(c, w, e);
    OpenedKey(c, w, e);
  }

  lemma StepKeepsManned(c: Rules, w: World, e: Event)
    requires Inv(c, w) && Legal(w, e) && AllManned(w)
    ensures AllManned(Step(c, w, e))
  {
    var t, t' := w.state.table, Next(c, w.state, e).table;
    EnrolledStay(c, w.state, e);
    forall id ensures Manned(Step(c, w, e), id) {
      assert SessionOk(w, id) && Manned(w, id);
      if id in t'.sessions {
        if id in t.sessions {
          StepEvolves(c, w, e, id);
          FollowerManned(t.sessions[id], t'.sessions[id]);
        } else {
          NewRowsAreOpened(c, w, e, id);
          OpenedManned(c, w, e);
        }
      }
    }
  }

  lemma {:induction false} RunKeepsManned(c: Rules, w: World, es: seq<Event>)
    requires Inv(c, w) && LegalRun(c, w, es) && AllManned(w)
    ensures AllManned(Run(c, w, es))
    decreases |es|
  {
    if es == [] {
    } else {
      StepKeepsInv(c, w, es[0]);
      StepKeepsManned(c, w, es[0]);
      RunKeepsManned(c, Step(c, w, es[0]), es[1..]);
    }
  }

  /** If the request is not bound and succeeds, the session it is answered with is for its
      payload and its very signers, or two key inputs collide. */
  ghost predicate OwnAnswer(c: Rules, w: World, e: Event)
    requires e.Create?
  {
    Bound(w.state.table, e.req.requestID).None? && Reply(c, w.state, e).Ok? ==>
      var id, t' := Reply(c, w.state, e).value, Next(c, w.state, e).table;
      && id in t'.sessions
      && var s := t'.sessions[id];
         || SessionFor(s, e)
         || Collide(c.sha, KeyInput(s.payloadHash, ParticipantIds(s.participants)),
                    KeyInput(e.req.payloadHash, SelectedIds(e.req, e.listing)))
  }

  lemma ParticipantElements(s: SessionValue)
    ensures Elements(ParticipantIds(s.participants)) == Ids(s.participants)
  {
    var ids := ParticipantIds(s.participants);
    forall x ensures x in Elements(ids) <==> x in Ids(s.participants) {
      if x in Elements(ids) {
        var i :| 0 <= i < |ids| && ids[i] == x;
        assert s.participants[i].signerID == x;
      }
      if x in Ids(s.participants) {
        var i :| 0 <= i < |s.participants| && s.participants[i].signerID == x;
        assert ids[i] == x;
      }
    }
  }

  /** Keys tell separable signers apart. */
  lemma SeparableKeys(c: Rules, s: SessionValue, e: Event, enrolled: set<Bytes>, threshold: int)
    requires e.Create? && KeyOf(c.sha, s) == KeyFor(c, e) && Separable(enrolled, threshold)
    requires Ids(s.participants) <= enrolled && |s.participants| >= threshold
    requires Over(SelectedIds(e.req, e.listing), enrolled, threshold)
    ensures SessionFor(s, e) || Collide(c.sha, KeyInput(s.payloadHash, ParticipantIds(s.participants)),
                                        KeyInput(e.req.payloadHash, SelectedIds(e.req, e.listing)))
  {
    var ids, asked := ParticipantIds(s.participants), SelectedIds(e.req, e.listing);
    ParticipantElements(s);
    KeyIdentifies(c.sha, s.payloadHash, ids, e.req.payloadHash, asked);
    assert !Clash(ids, asked, enrolled, threshold);
  }

  lemma OwnAnswerIn(c: Rules, w: World, e: Event)
    requires Inv(c, w) && AllManned(w) && e.Create? && Legal(w, e)
    requires Separable(w.state.policy.signers.Keys, w.state.policy.config.threshold)
    ensures OwnAnswer(c, w, e)
  {
    if Bound(w.state.table, e.req.requestID).None? && Reply(c, w.state, e).Ok? {
      var id := Reply(c, w.state, e).value;
      AnsweredKey(c, w, e);
      StepKeepsManned(c, w, e);
      assert Manned(Step(c, w, e), id);
      SelectedEnrolled(w, e);
      SeparableKeys(c, Next(c, w.state, e).table.sessions[id], e, w.state.policy.signers.Keys,
                    w.state.policy.config.threshold);
    }
  }

  /** In every reachable state whose enrolled IDs are separable at the threshold, a request whose
      ID is not bound is answered with a session for its payload and its very signers, with
      multiplicity, unless the two key inputs collide. */
  lemma SeparableMeansOwnSession(c: Rules, w: World, config: PolicyState.ThresholdConfig, start: int,
                                 es: seq<Event>, e: Event)
    requires Reachable(c, w, config, start, es) && e.Create? && Legal(w, e)
    requires Separable(w.state.policy.signers.Keys, config.threshold)
    ensures OwnAnswer(c, w, e)
  {
    ReachableInv(c, w, config, start, es);
    ConfigConstant(c, Start(config, start), es);
    StartInv(c, config, start);
    RunKeepsManned(c, Start(config, start), es);
    OwnAnswerIn(c, w, e);
  }

  /** Every enrolled ID has this length. */
  ghost predicate UniformIds(p: PolicyState.Policy, n: nat) {
    forall id :: id in p.signers ==> |id| == n
  }

  /** In particular if all enrolled IDs have one non-zero length. */
  lemma AnsweredSigners(c: Rules, w: World, config: PolicyState.ThresholdConfig, start: int, es: seq<Event>,
                        e: Event, n: nat)
    requires Reachable(c, w, config, start, es) && e.Create? && Legal(w, e)
    requires n > 0 && UniformIds(w.state.policy, n)
    ensures OwnAnswer(c, w, e)
  {
    PrefixFreeSeparable(w.state.policy.signers.Keys, config.threshold);
    SeparableMeansOwnSession(c, w, config, start, es, e);
  }

  /** An unbound request is answered with a session under its key. */
  lemma AnsweredKey(c: Rules, w: World, e: Event)
    requires Inv(c, w) && e.Create? && Legal(w, e)
    ensures Bound(w.state.table, e.req.requestID).None? && Reply(c, w.state, e).Ok? ==>
              var id, t' := Reply(c, w.state, e).value, Next(c, w.state, e).table;
              && id in t'.sessions && KeyOf(c.sha, t'.sessions[id]) == KeyFor(c, e)
              && SelectionRefusal(w.state.policy, e.req.requiredSigners).None?
              && |SelectedIds(e.req, e.listing)| >= w.state.policy.config.threshold
  {
    if Bound(w.state.table, e.req.requestID).None? && Reply(c, w.state, e).Ok? {
      var t, key := w.state.table, KeyFor(c, e);
      if Reusable(t, key).Some? {
        assert KeyOf(c.sha, t.sessions[t.byPayload[key]]) == key;
      } else {
        assert SessionOk(w, Reply(c, w.state, e).value);
        OpenedKey(c, w, e);
      }
    }
  }

  lemma SelectedEnrolled(w: World, e: Event)
    requires e.Create? && Legal(w, e) && SelectionRefusal(w.state.policy, e.req.requiredSigners).None?
    ensures Elements(SelectedIds(e.req, e.listing)) <= w.state.policy.signers.Keys
  {
    RequiredAreActive(w.state.policy, e.req.requiredSigners);
  }

  // ---- IDs of different lengths ----

  lemma ClashingKeys(c: Rules, e: Event, again: Event, ids: set<Bytes>, threshold: int)
    requires SameJob(e, again) && e.req.requiredSigners != [] && again.req.requiredSigners != []
    requires Clash(e.req.requiredSigners, again.req.requiredSigners, ids, threshold)
    ensures KeyFor(c, again) == KeyFor(c, e)
    ensures KeyInput(again.req.payloadHash, again.req.requiredSigners) ==
            KeyInput(e.req.payloadHash, e.req.requiredSigners)
  {
    var payload := e.req.payloadHash;
    KeyIdentifies(c.sha, payload, e.req.requiredSigners, payload, again.req.requiredSigners);
  }

  /** Active signers whose IDs run together to the same bytes: the second request is answered
      with the session of the first, which is not for its signers; and nothing collides. */
  lemma AnsweredWithOthers(c: Rules, w: World, e: Event, again: Event)
    requires Inv(c, w) && Legal(w, e) && Opens(c, w.state, e) && MayFollow(w, e, again)
    requires e.req.requiredSigners != [] && again.req.requiredSigners != []
    requires Clash(e.req.requiredSigners, again.req.requiredSigners, w.state.policy.ActiveIds(),
                   w.state.policy.config.threshold)
    ensures LegalRun(c, w, [e, again])
    ensures var id, s1 := Reply(c, w.state, e).value, Next(c, w.state, e);
            var t2 := Next(c, s1, again).table;
            && Reply(c, s1, again) == Ok(id) && id in t2.sessions
            && ParticipantIds(t2.sessions[id].participants) == e.req.requiredSigners
            && !SessionFor(t2.sessions[id], again)
    ensures !OwnAnswer(c, Step(c, w, e), again)
  {
    ActiveNotRefused(w.state.policy, again.req.requiredSigners);
    ClashingKeys(c, e, again, w.state.policy.ActiveIds(), w.state.policy.config.threshold);
    FollowerAdmitted(c, w, e, again);
    FollowerAnswered(c, w, e, again);
  }

  lemma ActiveNotRefused(p: PolicyState.Policy, ids: seq<Bytes>)
    requires Elements(ids) <= p.ActiveIds()
    ensures SelectionRefusal(p, ids).None?
  {
    SelectionRefusedIff(p, ids);
    forall x | x in ids ensures x in p.ActiveIds() {
      assert x in Elements(ids);
    }
  }

  /** The coordinator after enrolling these signers, and nothing else. */
  ghost function EnrolledWorld(c: Rules, config: PolicyState.ThresholdConfig, now: int,
                               es: seq<PolicyState.Enrollment>): World {
    Run(c, Start(config, now), PolicyOps(PolicyState.Enrolments(es)))
  }

  lemma EnrolledWorldState(c: Rules, config: PolicyState.ThresholdConfig, now: int, es: seq<PolicyState.Enrollment>)
    requires config.Valid() && PolicyState.Newcomers(es)
    ensures Reachable(c, EnrolledWorld(c, config, now, es), config, now, PolicyOps(PolicyState.Enrolments(es)))
    ensures var w := EnrolledWorld(c, config, now, es);
            && w.state.table == Table(map[], map[], map[]) && w.state.policy.config == config
            && w.history == Start(config, now).history
            && w.state.policy.signers.Keys == (set e | e in es :: e.signerID) == w.state.policy.ActiveIds()
  {
    PolicyState.EnrolmentsFile(PolicyState.InitialPolicy(config), es);
    PolicyRun(c, Start(config, now), PolicyState.Enrolments(es));
  }

  lemma FirstCreateOpens(c: Rules, w: World, e: Event)
    requires w.state.table == Table(map[], map[], map[]) && e.Create? && e.drawn.Some?
    requires e.req.requiredSigners != [] && SelectionRefusal(w.state.policy, e.req.requiredSigners).None?
    requires |e.req.requiredSigners| >= w.state.policy.config.threshold
    ensures Opens(c, w.state, e) && Reply(c, w.state, e) == Ok(e.drawn.value)
  {
  }

  /** Once clashing signers have been enrolled in an empty coordinator, whatever the threshold, a
      request for the ones is answered with the session of the others, under every hash. */
  lemma ReachableClash(c: Rules, config: PolicyState.ThresholdConfig, start: int, es: seq<PolicyState.Enrollment>,
                       e: Event, again: Event)
    requires config.Valid() && PolicyState.Newcomers(es)
    requires e.Create? && again.Create? && e.drawn.Some?
    requires Clash(e.req.requiredSigners, again.req.requiredSigners, set s | s in es :: s.signerID, config.threshold)
    requires var w := EnrolledWorld(c, config, start, es); Legal(w, e) && MayFollow(w, e, again)
    ensures var w := EnrolledWorld(c, config, start, es);
            var id, s1 := e.drawn.value, Next(c, w.state, e);
            var t2 := Next(c, s1, again).table;
            && LegalRun(c, w, [e, again])
            && Reply(c, w.state, e) == Ok(id) && Reply(c, s1, again) == Ok(id) && id in t2.sessions
            && ParticipantIds(t2.sessions[id].participants) == e.req.requiredSigners
            && !SessionFor(t2.sessions[id], again) && !OwnAnswer(c, Step(c, w, e), again)
  {
    var w := EnrolledWorld(c, config, start, es);
    EnrolledWorldState(c, config, start, es);
    ReachableInv(c, w, config, start, PolicyOps(PolicyState.Enrolments(es)));
    ActiveNotRefused(w.state.policy, e.req.requiredSigners);
    FirstCreateOpens(c, w, e);
    AnsweredWithOthers(c, w, e, again);
  }

  // ---- Exactly which signers are told apart ----

  /** From `w` on, as long as nobody else is enrolled, every unbound request gets its own. */
  ghost predicate AlwaysOwn(c: Rules, w: World) {
    forall es, e :: AsksLater(c, w, es, e) ==> OwnAnswer(c, Run(c, w, es), e)
  }

  ghost predicate AsksLater(c: Rules, w: World, es: seq<Event>, e: Event) {
    && LegalRun(c, w, es) && e.Create? && Legal(Run(c, w, es), e)
    && Run(c, w, es).state.policy.signers.Keys == w.state.policy.signers.Keys
  }

  lemma SeparableAlwaysOwn(c: Rules, w: World)
    requires Inv(c, w) && AllManned(w)
    requires Separable(w.state.policy.signers.Keys, w.state.policy.config.threshold)
    ensures AlwaysOwn(c, w)
  {
    forall es, e | AsksLater(c, w, es, e) ensures OwnAnswer(c, Run(c, w, es), e) {
      RunKeepsInv(c, w, es);
      RunKeepsManned(c, w, es);
      ConfigConstant(c, w, es);
      OwnAnswerIn(c, Run(c, w, es), e);
    }
  }

  /** Two requests, under the IDs "0" and "1", of which the first opens a session. */
  ghost function TwoRequests(w: World, payload: Digest, a: seq<Bytes>, b: seq<Bytes>): (Event, Event) {
    var listing := SomeListing(w.state.policy.ActiveIds());
    (Create(Request([48], payload, a), listing, Some([]), w.history.now),
     Create(Request([49], payload, b), listing, None, w.history.now))
  }

  lemma TwoRequestsFit(w: World, payload: Digest, a: seq<Bytes>, b: seq<Bytes>)
    requires w.history.drawnIds == {} && w.state.table == Table(map[], map[], map[])
    ensures var (e, again) := TwoRequests(w, payload, a, b);
            Legal(w, e) && MayFollow(w, e, again)
  {
    assert [48] != [49];
  }

  lemma AsksAfterOne(c: Rules, w: World, e: Event, again: Event)
    requires LegalRun(c, w, [e, again]) && e.Create? && again.Create?
    ensures AsksLater(c, w, [e], again) && Run(c, w, [e]) == Step(c, w, e)
  {
    assert [e, again][1..] == [again] && [e][1..] == [];
  }

  lemma ClashNotOwn(c: Rules, config: PolicyState.ThresholdConfig, start: int, es: seq<PolicyState.Enrollment>,
                    payload: Digest, a: seq<Bytes>, b: seq<Bytes>)
    requires config.Valid() && PolicyState.Newcomers(es)
    requires Clash(a, b, set s | s in es :: s.signerID, config.threshold)
    ensures !AlwaysOwn(c, EnrolledWorld(c, config, start, es))
  {
    var w := EnrolledWorld(c, config, start, es);
    var (e, again) := TwoRequests(w, payload, a, b);
    EnrolledWorldState(c, config, start, es);
    TwoRequestsFit(w, payload, a, b);
    ReachableClash(c, config, start, es, e, again);
    AsksAfterOne(c, w, e, again);
  }

  /** After enrolling any signers: whatever follows, every unbound request is answered with a
      session for its own payload and signers (or key inputs collide) exactly if the enrolled
      IDs are separable at the threshold. */
  lemma OwnSessionIffSeparable(c: Rules, config: PolicyState.ThresholdConfig, start: int,
                               es: seq<PolicyState.Enrollment>)
    requires config.Valid() && PolicyState.Newcomers(es)
    ensures AlwaysOwn(c, EnrolledWorld(c, config, start, es)) <==>
            Separable(set s | s in es :: s.signerID, config.threshold)
  {
    var w, ids := EnrolledWorld(c, config, start, es), set s | s in es :: s.signerID;
    EnrolledWorldState(c, config, start, es);
    if Separable(ids, config.threshold) {
      ReachableInv(c, w, config, start, PolicyOps(PolicyState.Enrolments(es)));
      SeparableAlwaysOwn(c, w);
    } else {
      var a, b :| Clash(a, b, ids, config.threshold);
      ClashNotOwn(c, config, start, es, seq(32, _ => 0), a, b);
    }
  }

  /** Four signers whose IDs run together in pairs are enough, at every threshold. */
  lemma PairsNotOwn(c: Rules, config: PolicyState.ThresholdConfig, start: int, es: seq<PolicyState.Enrollment>,
                    x: Bytes, y: Bytes, u: Bytes, v: Bytes)
    requires config.Valid() && PolicyState.Newcomers(es)
    requires {x, y, u, v} <= set s | s in es :: s.signerID
    requires Le(x, y) && Le(u, v) && x + y == u + v && |x| != |u| && |x| != |v|
    ensures !AlwaysOwn(c, EnrolledWorld(c, config, start, es))
  {
    var ids := set s | s in es :: s.signerID;
    PairsClash(x, y, u, v, config.threshold);
    if Separable(ids, config.threshold) {
      MoreIdsMoreClashes({x, y, u, v}, ids, config.threshold);
    }
    OwnSessionIffSeparable(c, config, start, es);
  }
}
