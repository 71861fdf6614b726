/** AcceptTransition under any interleaving of any number of calls (policy/validator.go). */
module Concurrency {
  import opened Basics
  import opened Records
  import opened Validators

  /** Where a call of AcceptTransition stands. Its three sections are: read the version under
      the read lock, check without a lock, re-check and commit under the write lock. */
  datatype Call =
    | Started(record: Record)
    | HasRead(record: Record, snapshot: Uint64)
    | Checked(record: Record)
    | Returned(record: Record, verdict: Verdict)

  /** `accepted` is history: the versions committed so far, in order. */
  datatype World = World(last: Uint64, calls: map<nat, Call>, accepted: seq<Uint64>)

  datatype Action = Invoke(id: nat, record: Record) | Advance(id: nat)

  ghost function Commit(w: World, id: nat, r: Record): World {
    if r.version <= w.last then w.(calls := w.calls[id := Returned(r, Some(RollbackDetected))])
    else World(r.version, w.calls[id := Returned(r, None)], w.accepted + [r.version])
  }

  ghost function Step(q: QuorumRules, w: World, a: Action): World {
    match a
    case Invoke(id, r) => if id in w.calls then w else w.(calls := w.calls[id := Started(r)])
    case Advance(id) =>
      if id !in w.calls then w
      else match w.calls[id]
        case Started(r) => w.(calls := w.calls[id := HasRead(r, w.last)])
        case HasRead(r, snapshot) =>
          var v := VerdictAgainst(q, snapshot, r);
          w.(calls := w.calls[id := if v.None? then Checked(r) else Returned(r, v)])
        case Checked(r) => Commit(w, id, r)
        case Returned(_, _) => w
  }

  ghost function Run(q: QuorumRules, w: World, schedule: seq<Action>): World
    decreases |schedule|
  {
    if schedule == [] then w else Run(q, Step(q, w, schedule[0]), schedule[1..])
  }

  function Start(initial: Uint64): World {
    World(initial, map[], [])
  }

  ghost predicate Increasing(s: seq<Uint64>) {
    forall i, j :: 0 <= i < j < |s| ==> s[i] < s[j]
  }

  /** The version in force is the last one accepted, or the initial one. */
  ghost predicate LogOk(w: World, initial: Uint64) {
    && Increasing(w.accepted)
    && (forall v :: v in w.accepted ==> initial < v <= w.last)
    && w.last == (if w.accepted == [] then initial else w.accepted[|w.accepted| - 1])
  }

  ghost predicate CallOk(q: QuorumRules, w: World, c: Call) {
    match c
    case Started(_) => true
    case HasRead(_, snapshot) => snapshot <= w.last
    case Checked(r) => HasQuorum(q, r)
    case Returned(r, None) => HasQuorum(q, r) && r.version in w.accepted
    case Returned(r, Some(RollbackDetected)) => r.version <= w.last
    case Returned(r, Some(InsufficientQuorum)) => !HasQuorum(q, r)
  }

  ghost predicate AcceptedBy(w: World, id: nat, v: Uint64) {
    id in w.calls && w.calls[id].Returned? && w.calls[id].verdict.None? && w.calls[id].record.version == v
  }

  /** Each accepted version has exactly one accepting call. */
  ghost predicate AcceptorsOk(w: World) {
    && (forall v :: v in w.accepted ==> exists id :: AcceptedBy(w, id, v))
    && (forall v, i, j :: AcceptedBy(w, i, v) && AcceptedBy(w, j, v) ==> i == j)
  }

  ghost predicate Inv(q: QuorumRules, w: World, initial: Uint64) {
    && LogOk(w, initial)
    && (forall id :: id in w.calls ==> CallOk(q, w, w.calls[id]))
    && AcceptorsOk(w)
  }

  /** A step that only moves one call, without committing, keeps the invariant. */
  lemma MoveKeepsInv(q: QuorumRules, w: World, initial: Uint64, id: nat, c: Call)
    requires Inv(q, w, initial) && CallOk(q, w, c)
    requires !(c.Returned? && c.verdict.None?)
    requires id in w.calls ==> !(w.calls[id].Returned? && w.calls[id].verdict.None?)
    ensures Inv(q, w.(calls := w.calls[id := c]), initial)
  {
    var w' := w.(calls := w.calls[id := c]);
    assert forall v, i :: AcceptedBy(w', i, v) <==> AcceptedBy(w, i, v);
    forall v | v in w'.accepted ensures exists i :: AcceptedBy(w', i, v) {
      var i :| AcceptedBy(w, i, v);
      assert AcceptedBy(w', i, v);
    }
  }

  lemma CommitKeepsInv(q: QuorumRules, w: World, initial: Uint64, id: nat)
    requires Inv(q, w, initial) && id in w.calls && w.calls[id].Checked?
    ensures Inv(q, Commit(w, id, w.calls[id].record), initial)
  {
    var r := w.calls[id].record;
    if r.version <= w.last {
      MoveKeepsInv(q, w, initial, id, Returned(r, Some(RollbackDetected)));
    } else {
      var w' := Commit(w, id, r);
      assert initial <= w.last by {
        if w.accepted != [] { assert w.accepted[|w.accepted| - 1] in w.accepted; }
      }
      forall v | v in w'.accepted ensures exists i :: AcceptedBy(w', i, v) {
        if v == r.version {
          assert AcceptedBy(w', id, v);
        } else {
          var i :| AcceptedBy(w, i, v);
          assert AcceptedBy(w', i, v);
        }
      }
      forall v, i, j | AcceptedBy(w', i, v) && AcceptedBy(w', j, v) ensures i == j {
        if i != id { assert AcceptedBy(w, i, v); }
        if j != id { assert AcceptedBy(w, j, v); }
      }
    }
  }

  lemma StepKeepsInv(q: QuorumRules, w: World, initial: Uint64, a: Action)
    requires Inv(q, w, initial)
    ensures Inv(q, Step(q, w, a), initial)
  {
    match a
    case Invoke(id, r) =>
      if id !in w.calls { MoveKeepsInv(q, w, initial, id, Started(r)); }
    case Advance(id) =>
      if id in w.calls {
        match w.calls[id]
        case Started(r) => MoveKeepsInv(q, w, initial, id, HasRead(r, w.last));
        case HasRead(r, snapshot) =>
          var v := VerdictAgainst(q, snapshot, r);
          MoveKeepsInv(q, w, initial, id, if v.None? then Checked(r) else Returned(r, v));
        case Checked(r) => CommitKeepsInv(q, w, initial, id);
        case Returned(_, _) =>
      }
  }

  lemma {:induction false} RunKeepsInv(q: QuorumRules, w: World, initial: Uint64, schedule: seq<Action>)
    requires Inv(q, w, initial)
    ensures Inv(q, Run(q, w, schedule), initial)
    decreases |schedule|
  {
    if schedule == [] {
    } else {
      StepKeepsInv(q, w, initial, schedule[0]);
      RunKeepsInv(q, Step(q, w, schedule[0]), initial, schedule[1..]);
    }
  }

  /** Under every interleaving the accepted versions strictly increase above the initial one,
      each is accepted by exactly one call, and that call's record has a quorum. */
  lemma AcceptedVersionsIncrease(q: QuorumRules, initial: Uint64, schedule: seq<Action>)
    ensures var w := Run(q, Start(initial), schedule);
            && Increasing(w.accepted)
            && (forall v :: v in w.accepted ==> initial < v <= w.last)
            && (forall id, v :: AcceptedBy(w, id, v) ==> v in w.accepted && HasQuorum(q, w.calls[id].record))
            && AcceptorsOk(w)
  {
    RunKeepsInv(q, Start(initial), initial, schedule);
  }

  /** A returned call whose record had a quorum offered no more than the version in force. */
  lemma ReturnedQuorumBelow(q: QuorumRules, w: World, initial: Uint64, id: nat)
    requires Inv(q, w, initial) && id in w.calls && w.calls[id].Returned? && HasQuorum(q, w.calls[id].record)
    ensures w.calls[id].record.version <= w.last
  {
    var r, v := w.calls[id].record, w.calls[id].verdict;
    assert CallOk(q, w, Returned(r, v));
    if v.None? {
      assert r.version in w.accepted;
    } else if v.value == RollbackDetected {
      assert r.version <= w.last;
    }
  }

  /** `v` is the maximum of the initial version and the offered versions with a quorum. */
  ghost predicate IsMaximumOffered(q: QuorumRules, w: World, initial: Uint64, v: Uint64) {
    && initial <= v
    && (forall id :: id in w.calls && HasQuorum(q, w.calls[id].record) ==> w.calls[id].record.version <= v)
    && (v == initial ||
        exists id :: id in w.calls && HasQuorum(q, w.calls[id].record) && w.calls[id].record.version == v)
  }

  ghost predicate Quiescent(w: World) {
    forall id :: id in w.calls ==> w.calls[id].Returned?
  }

  /** Once all calls have returned, the version in force is exactly the maximum of the initial
      version and all offered versions that had a quorum, whatever the interleaving was. */
  lemma QuiescentVersionIsMaximum(q: QuorumRules, initial: Uint64, schedule: seq<Action>)
    requires Quiescent(Run(q, Start(initial), schedule))
    ensures var w := Run(q, Start(initial), schedule); IsMaximumOffered(q, w, initial, w.last)
  {
    var w := Run(q, Start(initial), schedule);
    RunKeepsInv(q, Start(initial), initial, schedule);
    if w.last != initial {
      assert w.last in w.accepted;
      var id :| AcceptedBy(w, id, w.last);
      assert HasQuorum(q, w.calls[id].record);
    }
    forall id | id in w.calls && HasQuorum(q, w.calls[id].record)
      ensures w.calls[id].record.version <= w.last
    {
      ReturnedQuorumBelow(q, w, initial, id);
    }
  }

  /** Three sections run without interruption act as one atomic AcceptTransition. */
  lemma UninterruptedIsAtomic(q: QuorumRules, w: World, id: nat, r: Record)
    requires id !in w.calls
    ensures var w' := Run(q, w, [Invoke(id, r), Advance(id), Advance(id), Advance(id)]);
            var v := VerdictAgainst(q, w.last, r);
            && id in w'.calls && w'.calls[id] == Returned(r, v)
            && w'.last == (if v.None? then r.version else w.last)
  {
    var s := [Invoke(id, r), Advance(id), Advance(id), Advance(id)];
    var w1 := Step(q, w, s[0]);
    var w2 := Step(q, w1, s[1]);
    var w3 := Step(q, w2, s[2]);
    assert s[1..] == [Advance(id), Advance(id), Advance(id)];
    assert s[1..][1..] == [Advance(id), Advance(id)];
    assert s[1..][1..][1..] == [Advance(id)];
    assert s[1..][1..][1..][1..] == [];
    assert Run(q, w, s) == Run(q, w1, s[1..]) == Run(q, w2, s[1..][1..]) == Run(q, w3, s[1..][1..][1..])
        == Run(q, Step(q, w3, Advance(id)), []);
  }

  // ---- Linearizability ----

  /** One call in the sequential order, with its verdict. */
  datatype Entry = Entry(id: nat, record: Record, verdict: Verdict)

  /** What a step adds to the log: a call that will be refused by its checks is ordered at its
      read section, any other call at its commit section. */
  ghost function Logs(q: QuorumRules, w: World, a: Action): seq<Entry> {
    if a.Invoke? || a.id !in w.calls then []
    else match w.calls[a.id]
      case Started(r) =>
        var v := VerdictAgainst(q, w.last, r);
        if v.Some? then [Entry(a.id, r, v)] else []
      case Checked(r) => [Entry(a.id, r, if r.version <= w.last then Some(RollbackDetected) else None)]
      case _ => []
  }

  ghost function Log(q: QuorumRules, w: World, schedule: seq<Action>): seq<Entry>
    decreases |schedule|
  {
    if schedule == [] then [] else Logs(q, w, schedule[0]) + Log(q, Step(q, w, schedule[0]), schedule[1..])
  }

  function LastAfter(last: Uint64, log: seq<Entry>): Uint64
    decreases |log|
  {
    if log == [] then last
    else LastAfter(if log[0].verdict.None? then log[0].record.version else last, log[1..])
  }

  /** Called one after another in this order, the calls get these very verdicts. */
  ghost predicate Replays(q: QuorumRules, last: Uint64, log: seq<Entry>)
    decreases |log|
  {
    log == [] ||
    (log[0].verdict == VerdictAgainst(q, last, log[0].record)
     && Replays(q, if log[0].verdict.None? then log[0].record.version else last, log[1..]))
  }

  lemma StepReplays(q: QuorumRules, w: World, initial: Uint64, a: Action)
    requires Inv(q, w, initial)
    ensures Replays(q, w.last, Logs(q, w, a)) && LastAfter(w.last, Logs(q, w, a)) == Step(q, w, a).last
  {
    if a.Advance? && a.id in w.calls {
      assert CallOk(q, w, w.calls[a.id]);
    }
  }

  lemma {:induction false} ReplaysAppend(q: QuorumRules, last: Uint64, a: seq<Entry>, b: seq<Entry>)
    requires Replays(q, last, a) && Replays(q, LastAfter(last, a), b)
    ensures Replays(q, last, a + b) && LastAfter(last, a + b) == LastAfter(LastAfter(last, a), b)
    decreases |a|
  {
    if a == [] {
      assert a + b == b;
    } else {
      assert (a + b)[1..] == a[1..] + b;
      ReplaysAppend(q, if a[0].verdict.None? then a[0].record.version else last, a[1..], b);
    }
  }

  lemma {:induction false} RunReplays(q: QuorumRules, w: World, initial: Uint64, schedule: seq<Action>)
    requires Inv(q, w, initial)
    ensures Replays(q, w.last, Log(q, w, schedule))
    ensures LastAfter(w.last, Log(q, w, schedule)) == Run(q, w, schedule).last
    decreases |schedule|
  {
    if schedule == [] {
    } else {
      var w' := Step(q, w, schedule[0]);
      StepReplays(q, w, initial, schedule[0]);
      StepKeepsInv(q, w, initial, schedule[0]);
      RunReplays(q, w', initial, schedule[1..]);
      ReplaysAppend(q, w.last, Logs(q, w, schedule[0]), Log(q, w', schedule[1..]));
    }
  }

  /** The verdict of a call that has been ordered, whether it has returned it yet or not. */
  ghost function Decided(q: QuorumRules, c: Call): Option<Verdict> {
    match c
    case Started(_) => None
    case HasRead(r, snapshot) =>
      if VerdictAgainst(q, snapshot, r).Some? then Some(VerdictAgainst(q, snapshot, r)) else None
    case Checked(_) => None
    case Returned(_, v) => Some(v)
  }

  ghost predicate EntryOk(q: QuorumRules, w: World, e: Entry) {
    e.id in w.calls && w.calls[e.id].record == e.record && Decided(q, w.calls[e.id]) == Some(e.verdict)
  }

  ghost predicate Ordered(log: seq<Entry>, id: nat) {
    exists k :: 0 <= k < |log| && log[k].id == id
  }

  /** The log holds exactly the decided calls, each once, with its record and verdict. */
  ghost predicate LogsCalls(q: QuorumRules, w: World, log: seq<Entry>) {
    && (forall k :: 0 <= k < |log| ==> EntryOk(q, w, log[k]))
    && (forall j, k :: 0 <= j < k < |log| ==> log[j].id != log[k].id)
    && (forall id :: id in w.calls && Decided(q, w.calls[id]).Some? ==> Ordered(log, id))
  }

  /** A call that has been decided stays so, and no step decides any call but its own. */
  lemma StepDecides(q: QuorumRules, w: World, a: Action, id: nat)
    requires id in w.calls
    ensures id in Step(q, w, a).calls && Step(q, w, a).calls[id].record == w.calls[id].record
    ensures Decided(q, w.calls[id]).Some? ==>
              Decided(q, Step(q, w, a).calls[id]) == Decided(q, w.calls[id]) && !Ordered(Logs(q, w, a), id)
    ensures Decided(q, w.calls[id]).None? && Decided(q, Step(q, w, a).calls[id]).Some? ==>
              Logs(q, w, a) == [Entry(id, w.calls[id].record, Decided(q, Step(q, w, a).calls[id]).value)]
  {
  }

  lemma LoggedDecided(q: QuorumRules, w: World, a: Action)
    ensures Logs(q, w, a) != [] ==>
              |Logs(q, w, a)| == 1 && EntryOk(q, Step(q, w, a), Logs(q, w, a)[0])
              && Logs(q, w, a)[0].id in w.calls && Decided(q, w.calls[Logs(q, w, a)[0].id]).None?
  {
  }

  lemma StepKeepsLog(q: QuorumRules, w: World, a: Action, log: seq<Entry>)
    requires LogsCalls(q, w, log)
    ensures LogsCalls(q, Step(q, w, a), log + Logs(q, w, a))
  {
    var w', log' := Step(q, w, a), log + Logs(q, w, a);
    LoggedDecided(q, w, a);
    forall k | 0 <= k < |log'| ensures EntryOk(q, w', log'[k]) {
      if k < |log| {
        assert EntryOk(q, w, log[k]);
        StepDecides(q, w, a, log[k].id);
      }
    }
    forall j, k | 0 <= j < k < |log'| ensures log'[j].id != log'[k].id {
      if j < |log| <= k {
        assert EntryOk(q, w, log[j]);
      }
    }
    forall id | id in w'.calls && Decided(q, w'.calls[id]).Some? ensures Ordered(log', id) {
      DecidedOrdered(q, w, a, log, id);
    }
  }

  lemma DecidedOrdered(q: QuorumRules, w: World, a: Action, log: seq<Entry>, id: nat)
    requires LogsCalls(q, w, log)
    requires id in Step(q, w, a).calls && Decided(q, Step(q, w, a).calls[id]).Some?
    ensures Ordered(log + Logs(q, w, a), id)
  {
    var log' := log + Logs(q, w, a);
    StepDecides(q, w, a, id);
    if Decided(q, w.calls[id]).Some? {
      var k :| 0 <= k < |log| && log[k].id == id;
      assert log'[k].id == id;
    } else {
      assert log'[|log|].id == id;
    }
  }

  lemma {:induction false} RunKeepsLog(q: QuorumRules, w: World, schedule: seq<Action>, log: seq<Entry>)
    requires LogsCalls(q, w, log)
    ensures LogsCalls(q, Run(q, w, schedule), log + Log(q, w, schedule))
    decreases |schedule|
  {
    if schedule == [] {
      assert log + [] == log;
    } else {
      var w', more := Step(q, w, schedule[0]), Logs(q, w, schedule[0]);
      StepKeepsLog(q, w, schedule[0], log);
      RunKeepsLog(q, w', schedule[1..], log + more);
      assert log + (more + Log(q, w', schedule[1..])) == (log + more) + Log(q, w', schedule[1..]);
    }
  }

  /** For every schedule, one sequential order: its replay gives each call its very verdict and
      ends in the version in force, and every returned call is in it exactly once. */
  lemma Linearizable(q: QuorumRules, initial: Uint64, schedule: seq<Action>)
    ensures var w, log := Run(q, Start(initial), schedule), Log(q, Start(initial), schedule);
            && Replays(q, initial, log) && LastAfter(initial, log) == w.last
            && LogsCalls(q, w, log)
            && (forall id :: id in w.calls && w.calls[id].Returned? ==> Ordered(log, id))
  {
    RunReplays(q, Start(initial), initial, schedule);
    RunKeepsLog(q, Start(initial), schedule, []);
    assert [] + Log(q, Start(initial), schedule) == Log(q, Start(initial), schedule);
  }

  lemma {:induction false} LogAppend(q: QuorumRules, w: World, a: seq<Action>, b: seq<Action>)
    ensures Log(q, w, a + b) == Log(q, w, a) + Log(q, Run(q, w, a), b)
    ensures Run(q, w, a + b) == Run(q, Run(q, w, a), b)
    decreases |a|
  {
    if a == [] {
      assert a + b == b;
    } else {
      assert (a + b)[1..] == a[1..] + b;
      LogAppend(q, Step(q, w, a[0]), a[1..], b);
    }
  }

  /** The order respects real time: a call that has returned before another is invoked comes
      before it. */
  lemma OrderRespectsTime(q: QuorumRules, initial: Uint64, before: seq<Action>, after: seq<Action>, i: nat, j: nat)
    requires var w, log := Run(q, Start(initial), before), Log(q, Start(initial), before + after);
             && i < |log| && j < |log|
             && log[i].id in w.calls && w.calls[log[i].id].Returned? && log[j].id !in w.calls
    ensures i < j
  {
    var w, log := Run(q, Start(initial), before), Log(q, Start(initial), before + after);
    var first := Log(q, Start(initial), before);
    LogAppend(q, Start(initial), before, after);
    Linearizable(q, initial, before);
    Linearizable(q, initial, before + after);
    assert Ordered(first, log[i].id);
    var k :| 0 <= k < |first| && first[k].id == log[i].id;
    assert log[k] == first[k];
    forall m | 0 <= m < |first| ensures log[m].id in w.calls {
      assert log[m] == first[m] && EntryOk(q, w, first[m]);
    }
  }

  // ---- The sections on the real validator ----

  /** The next section of a call, as the validator's own methods perform it. */
  method Section(v: Validator, call: Call, ghost w: World, ghost id: nat) returns (call': Call)
    requires w.last == v.lastKnownVersion && id in w.calls && w.calls[id] == call
    modifies v
    ensures var w' := Step(v.Rules(), w, Advance(id));
            w'.last == v.lastKnownVersion && w'.calls == w.calls[id := call']
  {
    match call
    case Started(r) =>
      var snapshot := v.ReadVersion();
      call' := HasRead(r, snapshot);
    case HasRead(r, snapshot) =>
      var verdict := v.CheckAgainst(snapshot, r);
      call' := if verdict.None? then Checked(r) else Returned(r, verdict);
    case Checked(r) =>
      var verdict := v.CommitVersion(r);
      call' := Returned(r, verdict);
    case Returned(_, _) =>
      call' := call;
  }

  lemma {:induction false} RunSnoc(q: QuorumRules, w: World, schedule: seq<Action>, i: nat)
    requires i < |schedule|
    ensures Run(q, w, schedule[..i + 1]) == Step(q, Run(q, w, schedule[..i]), schedule[i])
    decreases i
  {
    if i == 0 {
      assert schedule[..1][1..] == [];
    } else {
      RunSnoc(q, Step(q, w, schedule[0]), schedule[1..], i - 1);
      assert schedule[..i + 1][1..] == schedule[1..][..i];
      assert schedule[..i][1..] == schedule[1..][..i - 1];
    }
  }

  /** Whatever the scheduler does with the sections of whatever calls, the validator ends as
      the run of that schedule says. */
  method Execute(v: Validator, schedule: seq<Action>) returns (calls: map<nat, Call>)
    modifies v
    ensures var w := Run(v.Rules(), Start(old(v.lastKnownVersion)), schedule);
            v.lastKnownVersion == w.last && calls == w.calls
  {
    calls := map[];
    ghost var w := Start(v.lastKnownVersion);
    var i := 0;
    while i < |schedule|
      invariant 0 <= i <= |schedule|
      invariant w == Run(v.Rules(), Start(old(v.lastKnownVersion)), schedule[..i])
      invariant v.lastKnownVersion == w.last && calls == w.calls
    {
      RunSnoc(v.Rules(), Start(old(v.lastKnownVersion)), schedule, i);
      match schedule[i] {
        case Invoke(id, r) =>
          if id !in calls {
            calls := calls[id := Started(r)];
          }
        case Advance(id) =>
          if id in calls {
            var call := Section(v, calls[id], w, id);
            calls := calls[id := call];
          }
      }
      w := Step(v.Rules(), w, schedule[i]);
      i := i + 1;
    }
    assert schedule[..i] == schedule;
  }
}
