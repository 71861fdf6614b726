/** Startup recovery over an arbitrary store (policy/recovery.go), and policy records in sequence. */
module Recovery {
  import opened Basics
  import opened Records
  import opened PolicyState
  import opened Validators

  /** What loading from the store yields at the moment. */
  datatype Content = Loaded(record: Record) | Absent | Unreadable

  datatype RecoveryError =
    | StoreRequired
    | ValidatorRequired
    | PersistedRejected(error: TransitionError)
    | LoadFailed
    | StateNotFound
    | BootstrapMissing
    | BootstrapRejected(error: TransitionError)
    | PersistFailed

  type Recovered = Result<Record, RecoveryError>

  /** The operator's choices, and whether the store will refuse to save. */
  datatype Attempt = Attempt(allowBootstrap: bool, bootstrap: Option<Record>, saveFails: bool)

  /** What recovery reads and may change: the version in force and the store. */
  datatype Situation = Situation(last: Uint64, content: Content)

  ghost function Outcome(q: QuorumRules, s: Situation, a: Attempt): Recovered {
    match s.content
    case Loaded(r) =>
      (match VerdictAgainst(q, s.last, r)
       case None => Ok(r)
       case Some(e) => Err(PersistedRejected(e)))
    case Unreadable => Err(LoadFailed)
    case Absent =>
      if !a.allowBootstrap then Err(StateNotFound)
      else match a.bootstrap
        case None => Err(BootstrapMissing)
        case Some(b) =>
          match VerdictAgainst(q, s.last, b)
          case Some(e) => Err(BootstrapRejected(e))
          case None => if a.saveFails then Err(PersistFailed) else Ok(b)
  }

  ghost function Next(q: QuorumRules, s: Situation, a: Attempt): Situation {
    match Outcome(q, s, a)
    case Ok(r) => Situation(r.version, Loaded(r))
    case Err(PersistFailed) => s.(last := a.bootstrap.value.version)
    case Err(_) => s
  }

  /** The StateStore interface as one cell that may hold anything. */
  class StateStore {
    var content: Content
    var saveFails: bool

    constructor (content: Content, saveFails: bool)
      ensures this.content == content && this.saveFails == saveFails
    {
      this.content := content;
      this.saveFails := saveFails;
    }

    method LoadLatestPolicyState() returns (c: Content)
      ensures c == content
    {
      return content;
    }

    method SavePolicyState(record: Record) returns (saved: bool)
      modifies this`content
      ensures saved == !saveFails
      ensures content == if saved then Loaded(record) else old(content)
    {
      if saveFails {
        return false;
      }
      content := Loaded(record);
      return true;
    }
  }

  ghost predicate Describes(s: Situation, v: Validator, store: StateStore)
    reads v, store
  {
    s == Situation(v.lastKnownVersion, store.content)
  }

  method RecoverPolicyState(store: StateStore?, validator: Validator?, allowBootstrap: bool, bootstrap: Option<Record>)
      returns (r: Recovered)
    modifies store, validator
    ensures store == null ==> r == Err(StoreRequired)
    ensures store != null && validator == null ==> r == Err(ValidatorRequired)
    ensures store != null && validator != null ==>
              var s := old(Situation(validator.lastKnownVersion, store.content));
              var a := old(Attempt(allowBootstrap, bootstrap, store.saveFails));
              && r == Outcome(validator.Rules(), s, a)
              && Describes(Next(validator.Rules(), s, a), validator, store)
              && store.saveFails == old(store.saveFails)
    ensures store != null && validator == null ==> store.content == old(store.content)
  {
    if store == null {
      return Err(StoreRequired);
    }
    if validator == null {
      return Err(ValidatorRequired);
    }
    var loaded := store.LoadLatestPolicyState();
    if loaded.Loaded? {
      var v := validator.AcceptTransition(loaded.record);
      if v.Some? {
        return Err(PersistedRejected(v.value));
      }
      return Ok(loaded.record);
    }
    if !loaded.Absent? {
      return Err(LoadFailed);
    }
    if !allowBootstrap {
      return Err(StateNotFound);
    }
    if bootstrap.None? {
      return Err(BootstrapMissing);
    }
    var v := validator.AcceptTransition(bootstrap.value);
    if v.Some? {
      return Err(BootstrapRejected(v.value));
    }
    var saved := store.SavePolicyState(bootstrap.value);
    if !saved {
      return Err(PersistFailed);
    }
    return Ok(bootstrap.value);
  }

  // ---- Properties ----

  /** A successful recovery returns a quorum-signed record above the prior version, which is then
      the version in force and the record in the store. */
  lemma RecoverySound(q: QuorumRules, s: Situation, a: Attempt, r: Record)
    requires Outcome(q, s, a) == Ok(r)
    ensures HasQuorum(q, r) && r.version > s.last
    ensures Next(q, s, a) == Situation(r.version, Loaded(r))
    ensures s.content == Loaded(r) || (s.content == Absent && a.allowBootstrap && a.bootstrap == Some(r))
  {
  }

  ghost function Attempts(q: QuorumRules, s: Situation, attempts: seq<Attempt>): Situation
    decreases |attempts|
  {
    if attempts == [] then s else Attempts(q, Next(q, s, attempts[0]), attempts[1..])
  }

  /** After one success no sequence of further attempts on the same validator changes anything,
      and every one of them is refused as a rollback. */
  lemma {:induction false} LaterRecoveriesFail(q: QuorumRules, s: Situation, a: Attempt,
                                               later: seq<Attempt>, again: Attempt)
    requires Outcome(q, s, a).Ok?
    ensures var s' := Next(q, s, a);
            && Attempts(q, s', later) == s'
            && Outcome(q, Attempts(q, s', later), again) == Err(PersistedRejected(RollbackDetected))
    decreases |later|
  {
    var s' := Next(q, s, a);
    if later == [] {
    } else {
      assert Next(q, s', later[0]) == s';
      LaterRecoveriesFail(q, s, a, later[1..], again);
    }
  }

  ghost function SuccessCount(q: QuorumRules, s: Situation, attempts: seq<Attempt>): nat
    decreases |attempts|
  {
    if attempts == [] then 0
    else (if Outcome(q, s, attempts[0]).Ok? then 1 else 0) + SuccessCount(q, Next(q, s, attempts[0]), attempts[1..])
  }

  lemma {:induction false} NoneAfterLoaded(q: QuorumRules, r: Record, attempts: seq<Attempt>)
    ensures SuccessCount(q, Situation(r.version, Loaded(r)), attempts) == 0
    ensures Attempts(q, Situation(r.version, Loaded(r)), attempts) == Situation(r.version, Loaded(r))
    decreases |attempts|
  {
    if attempts == [] {
    } else {
      assert Next(q, Situation(r.version, Loaded(r)), attempts[0]) == Situation(r.version, Loaded(r));
      NoneAfterLoaded(q, r, attempts[1..]);
    }
  }

  /** Over any sequence of attempts on one validator, whatever the operator offers and however
      often saving fails: the version never goes back, at most one attempt succeeds, a stored
      record or unreadable store is never overwritten, and if the store changes at all it ends
      with a quorum-signed record of exactly the version in force. */
  lemma {:induction false} AttemptsSafe(q: QuorumRules, s: Situation, attempts: seq<Attempt>)
    ensures var s' := Attempts(q, s, attempts);
            && s.last <= s'.last
            && SuccessCount(q, s, attempts) <= 1
            && (s.content != Absent ==> s'.content == s.content)
            && (s'.content != s.content ==>
                  s'.content.Loaded? && HasQuorum(q, s'.content.record)
                  && s'.content.record.version == s'.last && s.last < s'.last)
    decreases |attempts|
  {
    if attempts == [] {
    } else {
      var s1 := Next(q, s, attempts[0]);
      if Outcome(q, s, attempts[0]).Ok? {
        NoneAfterLoaded(q, Outcome(q, s, attempts[0]).value, attempts[1..]);
      } else {
        AttemptsSafe(q, s1, attempts[1..]);
      }
    }
  }

  /** A restarted process with the same rules and starting version recovers the same record. */
  lemma RestartRecoversSameRecord(q: QuorumRules, s: Situation, a: Attempt, restart: Attempt)
    requires Outcome(q, s, a).Ok?
    ensures Outcome(q, Situation(s.last, Next(q, s, a).content), restart) == Outcome(q, s, a)
  {
  }

  /** If the bootstrap record cannot be saved, the validator has moved past it all the same:
      offered again to this validator it is refused as a rollback ever after, whatever attempts
      come in between, even when the store has recovered or holds another record by then. */
  lemma FailedSaveStrandsBootstrap(q: QuorumRules, s: Situation, a: Attempt, later: seq<Attempt>, retry: Attempt)
    requires Outcome(q, s, a) == Err(PersistFailed)
    requires retry.allowBootstrap && retry.bootstrap == a.bootstrap
    ensures Next(q, s, a) == Situation(a.bootstrap.value.version, Absent)
    ensures Next(q, s, a).last > s.last
    ensures var s' := Attempts(q, Next(q, s, a), later);
            Outcome(q, s', retry) == Err(if s'.content.Absent? then BootstrapRejected(RollbackDetected)
                                         else PersistedRejected(RollbackDetected))
  {
    AttemptsSafe(q, Next(q, s, a), later);
  }

  /** Bootstrap leaves validator and store in agreement exactly when the save succeeds. */
  lemma BootstrapAgreesIffSaved(q: QuorumRules, s: Situation, a: Attempt)
    requires s.content == Absent && a.allowBootstrap && a.bootstrap.Some?
    requires VerdictAgainst(q, s.last, a.bootstrap.value).None?
    ensures Next(q, s, a).content == Loaded(a.bootstrap.value) <==> !a.saveFails
    ensures Next(q, s, a).last == a.bootstrap.value.version
  {
  }

  // ---- Records of successive policy states ----

  /** The policy states after each successful operation of a run. */
  ghost function SuccessStates(p: Policy, ops: seq<Operation>): seq<Policy>
    decreases |ops|
  {
    if ops == [] then []
    else
      var p' := Apply(p, ops[0]);
      (if Refusal(p, ops[0]).None? then [p'] else []) + SuccessStates(p', ops[1..])
  }

  /** Each record is the one created for the corresponding state, once guardians have signed it. */
  ghost predicate SignedRecordsOf(q: QuorumRules, states: seq<Policy>, records: seq<Record>) {
    && |records| == |states|
    && forall i :: 0 <= i < |states| ==>
         && records[i].(quorumSignatures := []) == StateRecord(q.sha, states[i], records[i].timestamp)
         && HasQuorum(q, records[i])
  }

  /** Each record describes the corresponding state and carries a quorum. */
  ghost predicate QuorumRecordsOf(q: QuorumRules, states: seq<Policy>, records: seq<Record>) {
    && |records| == |states|
    && forall i :: 0 <= i < |states| ==>
         && records[i].version == states[i].version
         && records[i].stateRoot == StateRoot(q.sha, states[i])
         && HasQuorum(q, records[i])
  }

  ghost predicate AllAccepted(q: QuorumRules, last: Uint64, records: seq<Record>)
    decreases |records|
  {
    records == [] || (VerdictAgainst(q, last, records[0]).None? && AllAccepted(q, records[0].version, records[1..]))
  }

  lemma {:induction false} SuccessStatesNumbered(p: Policy, ops: seq<Operation>)
    requires p.version + Successes(p, ops) < TWO_64
    ensures |SuccessStates(p, ops)| == Successes(p, ops)
    ensures forall i :: 0 <= i < |SuccessStates(p, ops)| ==> SuccessStates(p, ops)[i].version == p.version + 1 + i
    decreases |ops|
  {
    if ops == [] {
    } else {
      SuccessStatesNumbered(Apply(p, ops[0]), ops[1..]);
    }
  }

  lemma {:induction false} ConsecutiveAccepted(q: QuorumRules, last: Uint64, records: seq<Record>)
    requires forall i :: 0 <= i < |records| ==> HasQuorum(q, records[i]) && records[i].version == last + 1 + i
    ensures AllAccepted(q, last, records)
    decreases |records|
  {
    if records == [] {
    } else {
      ConsecutiveAccepted(q, records[0].version, records[1..]);
    }
  }

  /** Quorum-signed records taken after the successive operations of any run from the initial
      policy are accepted in order by a validator started at 0, and once a record has been
      accepted neither it nor any earlier one is accepted again. */
  lemma PolicyHistoryAccepted(q: QuorumRules, config: ThresholdConfig, ops: seq<Operation>, records: seq<Record>)
    requires Successes(InitialPolicy(config), ops) < TWO_64
    requires QuorumRecordsOf(q, SuccessStates(InitialPolicy(config), ops), records)
    ensures AllAccepted(q, 0, records)
    ensures forall i, j :: 0 <= i <= j < |records| ==>
              VerdictAgainst(q, records[j].version, records[i]) == Some(RollbackDetected)
  {
    SuccessStatesNumbered(InitialPolicy(config), ops);
    ConsecutiveAccepted(q, 0, records);
  }

  /** The records that CreateStateRecord makes after the successive successes of any run, once
      guardians have signed them, are accepted in order by a validator started at 0; none is
      accepted again after a later one. */
  lemma CreatedHistoryAccepted(q: QuorumRules, config: ThresholdConfig, ops: seq<Operation>, records: seq<Record>)
    requires Successes(InitialPolicy(config), ops) < TWO_64
    requires SignedRecordsOf(q, SuccessStates(InitialPolicy(config), ops), records)
    ensures |records| == Successes(InitialPolicy(config), ops)
    ensures AllAccepted(q, 0, records)
    ensures forall i, j :: 0 <= i <= j < |records| ==>
              VerdictAgainst(q, records[j].version, records[i]) == Some(RollbackDetected)
  {
    var states := SuccessStates(InitialPolicy(config), ops);
    forall i | 0 <= i < |states|
      ensures records[i].version == states[i].version && records[i].stateRoot == StateRoot(q.sha, states[i])
    {
      assert records[i].(quorumSignatures := []) == StateRecord(q.sha, states[i], records[i].timestamp);
    }
    SuccessStatesNumbered(InitialPolicy(config), ops);
    PolicyHistoryAccepted(q, config, ops, records);
  }

  // ---- Exactly when recovery succeeds ----

  /** The record is newer than `last` and enough different guardians have signed its hash. */
  ghost predicate Acceptable(q: QuorumRules, last: Uint64, r: Record) {
    r.version > last && EnoughSigned(q, r)
  }

  /** Recovery succeeds exactly with a stored record that is acceptable, or, where the store is
      empty, with an acceptable bootstrap record that is permitted, given, and saved. */
  lemma RecoverySucceedsIff(q: QuorumRules, s: Situation, a: Attempt, r: Record)
    ensures Outcome(q, s, a) == Ok(r) <==>
            && Acceptable(q, s.last, r)
            && (s.content == Loaded(r) ||
                (s.content == Absent && a.allowBootstrap && a.bootstrap == Some(r) && !a.saveFails))
  {
    AcceptedIff(q, s.last, r);
  }

  /** What each refusal of recovery means. */
  lemma RecoveryRefusals(q: QuorumRules, s: Situation, a: Attempt)
    ensures var r := Outcome(q, s, a);
            var offers := s.content == Absent && a.allowBootstrap && a.bootstrap.Some?;
            && (r == Err(LoadFailed) <==> s.content == Unreadable)
            && (r == Err(StateNotFound) <==> s.content == Absent && !a.allowBootstrap)
            && (r == Err(BootstrapMissing) <==> s.content == Absent && a.allowBootstrap && a.bootstrap == None)
            && (r == Err(PersistFailed) <==> offers && Acceptable(q, s.last, a.bootstrap.value) && a.saveFails)
            && (r.Err? && r.error.PersistedRejected? <==>
                s.content.Loaded? && !Acceptable(q, s.last, s.content.record))
            && (r.Err? && r.error.BootstrapRejected? <==> offers && !Acceptable(q, s.last, a.bootstrap.value))
  {
    if s.content.Loaded? {
      AcceptedIff(q, s.last, s.content.record);
    }
    if a.bootstrap.Some? {
      AcceptedIff(q, s.last, a.bootstrap.value);
    }
  }
}
