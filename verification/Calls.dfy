/** Calls on the real objects are steps of the runs, and sequences of calls are runs. */
module Calls {
  import opened Attestation
  import opened Basics
  import opened Coordinator
  import opened Safety
  import opened SessionManagers
  import opened SessionOps
  import opened Sessions
  import opened Strings
  import Nonces
  import PolicyState
  import StateManagers

  /** The state of a manager with its nonce manager and policy. */
  ghost function StateOf(m: Manager): State
    reads m, m.sessions.Values, m.nonceManager, m.policyState, m.policyState.enrolledSigners.Values
  {
    State(m.Value(), m.nonceManager.issued, m.policyState.Value())
  }

  /** Every object a call on the manager may write to. */
  ghost function Footprint(m: Manager): set<object>
    reads m, m.policyState
  {
    {m, m.nonceManager, m.policyState} + m.sessions.Values + m.policyState.enrolledSigners.Values
  }

  /** The same call, with the order in which the active signers were really ranged over. */
  ghost predicate SameCall(e: Event, e': Event) {
    e' == e || (e.Create? && e'.Create? && e' == e.(listing := e'.listing))
  }

  /** The footprint has only grown by new objects. */
  twostate predicate Grown(m: Manager)
    reads m, m.policyState
  {
    forall o :: o in Footprint(m) ==> o in old(Footprint(m)) || fresh(o)
  }

  method PerformCreate(m: Manager, e: Event) returns (answer: Answer, ghost e': Event)
    requires m.Valid() && e.Create? && (e.drawn.Some? ==> e.drawn.value !in m.sessions)
    modifies m
    ensures m.Valid() && SameCall(e, e') && Lists(e'.listing, old(StateOf(m)).policy.ActiveIds())
    ensures answer == Reply(m.Rules(), old(StateOf(m)), e')
    ensures StateOf(m) == Next(m.Rules(), old(StateOf(m)), e')
    ensures Grown(m)
  {
    ghost var p := m.policyState.Value();
    var r, listing := m.CreateSession(e.req, e.drawn, e.now);
    e' := e.(listing := listing);
    assert m.policyState.Value() == p;
    answer := if r.Ok? then Ok(r.value.id) else Err(r.error);
  }

  method PerformChallenge(m: Manager, e: Event) returns (answer: Answer)
    requires m.Valid() && e.Challenge? && (e.drawn.Some? ==> |e.drawn.value| == m.nonceManager.length)
    modifies m.nonceManager
    ensures m.Valid()
    ensures answer == Reply(m.Rules(), old(StateOf(m)), e)
    ensures StateOf(m) == Next(m.Rules(), old(StateOf(m)), e)
  {
    ghost var p := m.policyState.Value();
    answer := m.IssueChallenge(e.id, e.signerID, e.drawn, e.now);
    assert m.policyState.Value() == p;
  }

  method PerformSubmit(m: Manager, e: Event) returns (answer: Answer)
    requires m.Valid() && e.Submit?
    modifies m.Target(e.id), m.nonceManager
    ensures m.Valid()
    ensures answer == Reply(m.Rules(), old(StateOf(m)), e)
    ensures StateOf(m) == Next(m.Rules(), old(StateOf(m)), e)
  {
    ghost var p := m.policyState.Value();
    answer := m.SubmitAttestation(e.id, e.signerID, e.doc, e.nonce, e.now);
    assert m.policyState.Value() == p;
  }

  method PerformRecord(m: Manager, e: Event) returns (answer: Answer)
    requires m.Valid() && (e.Commitment? || e.Share?)
    modifies m.Target(e.id)
    ensures m.Valid()
    ensures answer == Reply(m.Rules(), old(StateOf(m)), e)
    ensures StateOf(m) == Next(m.Rules(), old(StateOf(m)), e)
  {
    ghost var p := m.policyState.Value();
    if e.Commitment? {
      answer := m.RecordCommitment(e.id, e.signerID);
    } else {
      answer := m.RecordShare(e.id, e.signerID);
    }
    assert m.policyState.Value() == p;
  }

  method PerformCleanup(m: Manager, e: Event) returns (report: Report)
    requires m.Valid() && (e.Cleanup? || e.CleanupNonces?)
    modifies m, m.nonceManager
    ensures m.Valid()
    ensures report == ReportOf(m.Rules(), old(StateOf(m)), e)
    ensures StateOf(m) == Next(m.Rules(), old(StateOf(m)), e)
    ensures Grown(m)
  {
    ghost var p := m.policyState.Value();
    var removed;
    if e.Cleanup? {
      removed := m.CleanupExpired(e.now);
    } else {
      removed := m.nonceManager.Cleanup(e.now);
      assert m.Value() == old(m.Value());
    }
    assert m.policyState.Value() == p;
    report := Removed(removed);
  }

  /** Changing the policy leaves the tables alone. */
  method PerformPolicyOp(m: Manager, e: Event) returns (report: Report)
    requires m.Valid() && e.PolicyOp?
    modifies m.policyState, m.policyState.enrolledSigners.Values
    ensures m.Valid()
    ensures report == ReportOf(m.Rules(), old(StateOf(m)), e)
    ensures StateOf(m) == Next(m.Rules(), old(StateOf(m)), e)
    ensures Grown(m)
  {
    ghost var t := m.Value();
    var r := PerformOperation(m.policyState, e.op);
    assert m.Value() == t;
    report := Version(r);
  }

  method PerformOperation(sm: StateManagers.StateManager, op: PolicyState.Operation)
      returns (r: PolicyState.VersionResult)
    requires sm.Valid()
    modifies sm, sm.enrolledSigners.Values
    ensures sm.Valid() && sm.Value() == PolicyState.Apply(old(sm.Value()), op)
    ensures r == PolicyState.Answer(old(sm.Value()), op)
    ensures fresh(sm.enrolledSigners.Values - old(sm.enrolledSigners.Values))
  {
    match op {
      case Enroll(id, key, now) =>
        var enrollment := new StateManagers.SignerEnrollment(id, key, PolicyState.Suspended, 0);
        r := sm.EnrollSigner(enrollment, now);
      case Suspend(id) => r := sm.SuspendSigner(id);
      case Reactivate(id) => r := sm.ReactivateSigner(id);
      case Revoke(id) => r := sm.RevokeSigner(id);
    }
  }

  /** Any call on the real objects, in a valid state and with fresh random draws, answers and
      leaves a state exactly as the runs say, and the state stays valid. */
  method Perform(m: Manager, e: Event) returns (answer: Answer, report: Report, ghost e': Event)
    requires m.Valid()
    requires e.Create? && e.drawn.Some? ==> e.drawn.value !in m.sessions
    requires e.Challenge? && e.drawn.Some? ==> |e.drawn.value| == m.nonceManager.length
    modifies Footprint(m)
    ensures m.Valid() && SameCall(e, e')
    ensures e'.Create? ==> Lists(e'.listing, old(StateOf(m)).policy.ActiveIds())
    ensures answer == Reply(m.Rules(), old(StateOf(m)), e')
    ensures report == ReportOf(m.Rules(), old(StateOf(m)), e')
    ensures StateOf(m) == Next(m.Rules(), old(StateOf(m)), e')
    ensures Grown(m)
  {
    e' := e;
    answer, report := DONE, NoReport;
    match e {
      case Create(_, _, _, _) => answer, e' := PerformCreate(m, e);
      case Challenge(_, _, _, _) => answer := PerformChallenge(m, e);
      case Submit(_, _, _, _, _) => answer := PerformSubmit(m, e);
      case Commitment(_, _) => answer := PerformRecord(m, e);
      case Share(_, _) => answer := PerformRecord(m, e);
      case Cleanup(_) => report := PerformCleanup(m, e);
      case CleanupNonces(_) => report := PerformCleanup(m, e);
      case PolicyOp(_) => report := PerformPolicyOp(m, e);
    }
  }

  // ---- Whole runs on the real objects ----

  /** Calls whose clock readings do not run backwards from `now` on and whose random draws are
      new, given the session IDs and the nonces drawn before. */
  ghost predicate Callable(now: int, ids: set<Bytes>, nonces: set<Bytes>, nonceLength: nat, es: seq<Event>)
    decreases |es|
  {
    es == [] ||
    var e := es[0];
    && (Clock(e).Some? ==> now <= Clock(e).value)
    && (e.Create? && e.drawn.Some? ==> e.drawn.value !in ids)
    && (e.Challenge? && e.drawn.Some? ==> |e.drawn.value| == nonceLength && e.drawn.value !in nonces)
    && Callable(NowAfter(now, e), IdsAfter(ids, e), NoncesAfter(nonces, e), nonceLength, es[1..])
  }

  function NowAfter(now: int, e: Event): int {
    if Clock(e).Some? then Clock(e).value else now
  }

  function IdsAfter(ids: set<Bytes>, e: Event): set<Bytes> {
    if e.Create? && e.drawn.Some? then ids + {e.drawn.value} else ids
  }

  function NoncesAfter(nonces: set<Bytes>, e: Event): set<Bytes> {
    if e.Challenge? && e.drawn.Some? then nonces + {e.drawn.value} else nonces
  }

  ghost predicate SameCalls(es: seq<Event>, es': seq<Event>) {
    |es'| == |es| && forall i :: 0 <= i < |es| ==> SameCall(es[i], es'[i])
  }

  /** The draws that a history knows of: session IDs, and nonces that have been issued. */
  ghost predicate Accounts(w: World, nonces: set<Bytes>) {
    w.state.table.sessions.Keys <= w.history.drawnIds && w.history.issued.Keys <= nonces
  }

  /** A call with the real listing is legal, and what it draws is accounted for. */
  lemma CallIsLegal(c: Rules, w: World, e: Event, e': Event, nonces: set<Bytes>, nonceLength: nat, es: seq<Event>)
    requires Accounts(w, nonces) && es != [] && es[0] == e
    requires Callable(w.history.now, w.history.drawnIds, nonces, nonceLength, es)
    requires SameCall(e, e') && (e'.Create? ==> Lists(e'.listing, w.state.policy.ActiveIds()))
    ensures Legal(w, e') && Accounts(Step(c, w, e'), NoncesAfter(nonces, e))
    ensures var h := Step(c, w, e').history;
            Callable(h.now, h.drawnIds, NoncesAfter(nonces, e), nonceLength, es[1..])
  {
    var h := Step(c, w, e').history;
    assert h.now == NowAfter(w.history.now, e) && h.drawnIds == IdsAfter(w.history.drawnIds, e);
    forall id | id in Next(c, w.state, e').table.sessions ensures id in h.drawnIds {
      if id !in w.state.table.sessions {
        NewRowsAreOpened(c, w, e', id);
      }
    }
  }

  lemma RunCons(c: Rules, w: World, e: Event, es: seq<Event>)
    requires Legal(w, e) && LegalRun(c, Step(c, w, e), es)
    ensures LegalRun(c, w, [e] + es)
    ensures Run(c, w, [e] + es) == Run(c, Step(c, w, e), es)
    ensures Replies(c, w, [e] + es) ==
            [(Reply(c, w.state, e), ReportOf(c, w.state, e))] + Replies(c, Step(c, w, e), es)
  {
    assert ([e] + es)[1..] == es;
  }

  /** The first of a sequence of calls, and what the others may rely on. */
  method PerformFirst(m: Manager, ghost w: World, ghost nonces: set<Bytes>, es: seq<Event>)
      returns (reply: (Answer, Report), ghost e': Event, ghost w': World)
    requires es != [] && m.Valid() && w.state == StateOf(m) && Accounts(w, nonces)
    requires Callable(w.history.now, w.history.drawnIds, nonces, m.nonceManager.length, es)
    modifies Footprint(m)
    ensures m.Valid() && Grown(m)
    ensures SameCall(es[0], e') && Legal(w, e') && w' == Step(m.Rules(), w, e')
    ensures reply == (Reply(m.Rules(), w.state, e'), ReportOf(m.Rules(), w.state, e'))
    ensures w'.state == StateOf(m) && Accounts(w', NoncesAfter(nonces, es[0]))
    ensures Callable(w'.history.now, w'.history.drawnIds, NoncesAfter(nonces, es[0]), m.nonceManager.length, es[1..])
  {
    var answer, report;
    answer, report, e' := Perform(m, es[0]);
    CallIsLegal(m.Rules(), w, es[0], e', nonces, m.nonceManager.length, es);
    reply, w' := (answer, report), Step(m.Rules(), w, e');
  }

  lemma SameCallsCons(es: seq<Event>, e': Event, rest: seq<Event>)
    requires es != [] && SameCall(es[0], e') && SameCalls(es[1..], rest)
    ensures SameCalls(es, [e'] + rest)
  {
    forall i | 0 < i < |es| ensures SameCall(es[i], ([e'] + rest)[i]) {
      assert SameCall(es[1..][i - 1], rest[i - 1]);
    }
  }

  /** Any sequence of calls on the real objects is a legal run: same calls, same answers, and the
      objects end in the state of the run. `w` is the state before with any history that fits. */
  method PerformAll(m: Manager, ghost w: World, ghost nonces: set<Bytes>, es: seq<Event>)
      returns (replies: seq<(Answer, Report)>, ghost es': seq<Event>)
    requires m.Valid() && w.state == StateOf(m) && Accounts(w, nonces)
    requires Callable(w.history.now, w.history.drawnIds, nonces, m.nonceManager.length, es)
    modifies Footprint(m)
    ensures m.Valid() && Grown(m)
    ensures SameCalls(es, es') && LegalRun(m.Rules(), w, es')
    ensures replies == Replies(m.Rules(), w, es')
    ensures StateOf(m) == Run(m.Rules(), w, es').state
    decreases |es|
  {
    if |es| == 0 {
      return [], [];
    }
    var reply, e', w' := PerformFirst(m, w, nonces, es);
    var rest, rest' := PerformAll(m, w', NoncesAfter(nonces, es[0]), es[1..]);
    RunCons(m.Rules(), w, e', rest');
    SameCallsCons(es, e', rest');
    replies, es' := [reply] + rest, [e'] + rest';
  }

  /** An empty coordinator, unless the configuration is refused. */
  method NewCoordinator(sha: Sha, timeout: int, verifier: Verifier, nonceLength: nat, nonceMaxAge: int,
                        config: PolicyState.ThresholdConfig)
      returns (m: Option<Manager>)
    ensures m.Some? <==> config.Valid()
    ensures m.Some? ==>
              && fresh(Footprint(m.value)) && m.value.Valid() && m.value.nonceManager.length == nonceLength
              && m.value.Rules() == SessionOps.Rules(sha, verifier.policy, nonceMaxAge, timeout)
              && StateOf(m.value) == Start(config, 0).state
  {
    var created := StateManagers.NewStateManager(sha, config);
    if created.Err? {
      return None;
    }
    var nonceManager := new Nonces.NonceManager(nonceLength, nonceMaxAge);
    var manager := new Manager(sha, timeout, verifier, nonceManager, created.value);
    return Some(manager);
  }

  /** The run from an empty coordinator: what is reached is a reachable state of the model. */
  method Serve(sha: Sha, timeout: int, verifier: Verifier, nonceLength: nat, nonceMaxAge: int,
               config: PolicyState.ThresholdConfig, ghost start: int, es: seq<Event>)
      returns (m: Option<Manager>, replies: seq<(Answer, Report)>, ghost es': seq<Event>)
    requires Callable(start, {}, {}, nonceLength, es)
    ensures m.Some? <==> config.Valid()
    ensures m.Some? ==>
              var c, w := SessionOps.Rules(sha, verifier.policy, nonceMaxAge, timeout), Start(config, start);
              && m.value.Valid() && SameCalls(es, es')
              && replies == Replies(c, w, es') && StateOf(m.value) == Run(c, w, es').state
              && Reachable(c, Run(c, w, es'), config, start, es')
  {
    m := NewCoordinator(sha, timeout, verifier, nonceLength, nonceMaxAge, config);
    replies, es' := [], [];
    if m.Some? {
      ghost var w := Start(config, start);
      replies, es' := PerformAll(m.value, w, {}, es);
    }
  }
}
