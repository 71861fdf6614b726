/** Policy versions across restarts: what a validator that begins at InitialVersion still refuses. */
module Restarts {
  import opened Basics
  import opened Records
  import opened Validators
  import opened Recovery

  /** One life of the process: where its validator begins, what the store holds by then, the
      operator's choices for recovery, and the records offered to it afterwards. */
  datatype Boot = Boot(initial: Uint64, content: Content, attempt: Attempt, offered: seq<Record>)

  // ---- Records offered to one validator ----

  /** The records AcceptTransition accepts, in order, out of those offered one after another. */
  ghost function AcceptedOf(q: QuorumRules, last: Uint64, offered: seq<Record>): (r: seq<Record>)
    decreases |offered|
  {
    if offered == [] then []
    else if VerdictAgainst(q, last, offered[0]).None?
    then [offered[0]] + AcceptedOf(q, offered[0].version, offered[1..])
    else AcceptedOf(q, last, offered[1..])
  }

  function LastVersion(last: Uint64, accepted: seq<Record>): Uint64 {
    if accepted == [] then last else accepted[|accepted| - 1].version
  }

  ghost predicate Increasing(records: seq<Record>) {
    forall i, j :: 0 <= i < j < |records| ==> records[i].version < records[j].version
  }

  ghost predicate AllAbove(last: Uint64, records: seq<Record>) {
    forall i :: 0 <= i < |records| ==> records[i].version > last
  }

  ghost predicate AllHaveQuorum(q: QuorumRules, records: seq<Record>) {
    forall i :: 0 <= i < |records| ==> HasQuorum(q, records[i])
  }

  lemma {:induction false} AcceptedIncrease(q: QuorumRules, last: Uint64, offered: seq<Record>)
    ensures var a := AcceptedOf(q, last, offered);
            Increasing(a) && AllAbove(last, a) && AllHaveQuorum(q, a)
    decreases |offered|
  {
    if offered == [] {
    } else if VerdictAgainst(q, last, offered[0]).None? {
      AcceptedIncrease(q, offered[0].version, offered[1..]);
    } else {
      AcceptedIncrease(q, last, offered[1..]);
    }
  }

  // ---- One life ----

  /** The record recovery offers to the validator, if any. */
  function Presented(content: Content, a: Attempt): seq<Record> {
    match content
    case Loaded(r) => [r]
    case Unreadable => []
    case Absent => if a.allowBootstrap && a.bootstrap.Some? then [a.bootstrap.value] else []
  }

  /** Recovery moves the validator exactly as offering that record does. */
  lemma RecoveryOffers(q: QuorumRules, s: Situation, a: Attempt)
    ensures Next(q, s, a).last == LastVersion(s.last, AcceptedOf(q, s.last, Presented(s.content, a)))
    ensures Outcome(q, s, a).Ok? ==> AcceptedOf(q, s.last, Presented(s.content, a)) == [Outcome(q, s, a).value]
  {
    var p := Presented(s.content, a);
    if p != [] {
      assert p[1..] == [];
    }
  }

  /** Everything a life accepts: by recovery, then out of what is offered. */
  ghost function AcceptedIn(q: QuorumRules, b: Boot): seq<Record> {
    AcceptedOf(q, b.initial, Presented(b.content, b.attempt) + b.offered)
  }

  /** After recovery the validator goes on from where recovery has left it. */
  lemma LifeGoesOn(q: QuorumRules, b: Boot)
    ensures var s := Next(q, Situation(b.initial, b.content), b.attempt);
            AcceptedIn(q, b) == AcceptedOf(q, b.initial, Presented(b.content, b.attempt))
                                + AcceptedOf(q, s.last, b.offered)
  {
    var p := Presented(b.content, b.attempt);
    RecoveryOffers(q, Situation(b.initial, b.content), b.attempt);
    if p == [] {
      assert p + b.offered == b.offered;
    } else {
      assert (p + b.offered)[1..] == b.offered && p[1..] == [];
    }
  }

  // ---- Sequences of lives ----

  ghost function AcceptedAcross(q: QuorumRules, boots: seq<Boot>): seq<Record>
    decreases |boots|
  {
    if boots == [] then []
    else AcceptedAcross(q, boots[..|boots| - 1]) + AcceptedIn(q, boots[|boots| - 1])
  }

  ghost predicate AtMost(records: seq<Record>, v: Uint64) {
    forall i :: 0 <= i < |records| ==> records[i].version <= v
  }

  /** Each life begins at or above everything accepted in the lives before it. */
  ghost predicate Carried(q: QuorumRules, boots: seq<Boot>) {
    forall i :: 0 <= i < |boots| ==> AtMost(AcceptedAcross(q, boots[..i]), boots[i].initial)
  }

  lemma IncreasingAppend(a: seq<Record>, b: seq<Record>, v: Uint64)
    requires Increasing(a) && Increasing(b) && AtMost(a, v) && AllAbove(v, b)
    ensures Increasing(a + b)
  {
  }

  lemma {:induction false} AcrossHaveQuorum(q: QuorumRules, boots: seq<Boot>)
    ensures AllHaveQuorum(q, AcceptedAcross(q, boots))
    decreases |boots|
  {
    if boots == [] {
    } else {
      var b := boots[|boots| - 1];
      AcrossHaveQuorum(q, boots[..|boots| - 1]);
      AcceptedIncrease(q, b.initial, Presented(b.content, b.attempt) + b.offered);
    }
  }

  /** If each life begins at or above what was accepted before, accepted versions strictly
      increase across restarts, whatever stores hold, operators choose and others offer. */
  lemma {:induction false} CarriedIncreases(q: QuorumRules, boots: seq<Boot>)
    requires Carried(q, boots)
    ensures Increasing(AcceptedAcross(q, boots))
    decreases |boots|
  {
    if boots == [] {
    } else {
      var n := |boots| - 1;
      var front, b := boots[..n], boots[n];
      assert forall i :: 0 <= i < n ==> front[..i] == boots[..i] && front[i] == boots[i];
      CarriedIncreases(q, front);
      AcceptedIncrease(q, b.initial, Presented(b.content, b.attempt) + b.offered);
      IncreasingAppend(AcceptedAcross(q, front), AcceptedIn(q, b), b.initial);
    }
  }

  /** A life that finds this record in the store. */
  function Finding(initial: Uint64, r: Record): Boot {
    Boot(initial, Loaded(r), Attempt(false, None, false), [])
  }

  lemma FindingAccepts(q: QuorumRules, v: Uint64, r: Record)
    requires HasQuorum(q, r) && r.version > v
    ensures AcceptedIn(q, Finding(v, r)) == [r]
    ensures Outcome(q, Situation(v, Loaded(r)), Finding(v, r).attempt) == Ok(r)
  {
    var offered := Presented(Loaded(r), Finding(v, r).attempt) + [];
    assert offered == [r] && offered[1..] == [];
    assert AcceptedOf(q, r.version, []) == [];
  }

  lemma AcrossSnoc(q: QuorumRules, boots: seq<Boot>, b: Boot)
    ensures AcceptedAcross(q, boots + [b]) == AcceptedAcross(q, boots) + AcceptedIn(q, b)
  {
    assert (boots + [b])[..|boots|] == boots;
  }

  lemma RepeatNotIncreasing(records: seq<Record>, k: nat)
    requires k < |records|
    ensures !Increasing(records + [records[k]])
  {
    var more := records + [records[k]];
    assert more[k].version == more[|records|].version;
  }

  /** A life that begins below an accepted version accepts its record again from the store. */
  lemma ReplayAccepted(q: QuorumRules, boots: seq<Boot>, v: Uint64, k: nat)
    requires k < |AcceptedAcross(q, boots)| && AcceptedAcross(q, boots)[k].version > v
    ensures var r := AcceptedAcross(q, boots)[k];
            && Outcome(q, Situation(v, Loaded(r)), Finding(v, r).attempt) == Ok(r)
            && AcceptedAcross(q, boots + [Finding(v, r)]) == AcceptedAcross(q, boots) + [r]
            && !Increasing(AcceptedAcross(q, boots + [Finding(v, r)]))
  {
    var r := AcceptedAcross(q, boots)[k];
    AcrossHaveQuorum(q, boots);
    FindingAccepts(q, v, r);
    AcrossSnoc(q, boots, Finding(v, r));
    RepeatNotIncreasing(AcceptedAcross(q, boots), k);
  }

  /** b begins where the i-th life does, with any store, choices and offers. */
  ghost predicate Instead(boots: seq<Boot>, i: int, b: Boot) {
    0 <= i < |boots| && b.initial == boots[i].initial
  }

  /** Wherever the i-th restart might have gone instead, versions would have kept increasing. */
  ghost predicate NeverReplays(q: QuorumRules, boots: seq<Boot>) {
    forall i, b :: Instead(boots, i, b) ==> Increasing(AcceptedAcross(q, boots[..i] + [b]))
  }

  lemma UncarriedReplays(q: QuorumRules, boots: seq<Boot>, i: nat)
    requires i < |boots| && !AtMost(AcceptedAcross(q, boots[..i]), boots[i].initial)
    ensures !NeverReplays(q, boots)
  {
    var k: nat :| k < |AcceptedAcross(q, boots[..i])|
                  && AcceptedAcross(q, boots[..i])[k].version > boots[i].initial;
    ReplayAccepted(q, boots[..i], boots[i].initial, k);
    assert Instead(boots, i, Finding(boots[i].initial, AcceptedAcross(q, boots[..i])[k]));
  }

  /** Versions strictly increase across restarts, for all that each restart may find in the
      store and be offered, exactly if each InitialVersion is at least the greatest version
      accepted in the lives before. */
  lemma RestartsSafeIff(q: QuorumRules, boots: seq<Boot>)
    ensures NeverReplays(q, boots) <==> Carried(q, boots)
  {
    if Carried(q, boots) {
      forall i, b | Instead(boots, i, b) ensures Increasing(AcceptedAcross(q, boots[..i] + [b])) {
        CarriedPrefix(q, boots, i, b);
        CarriedIncreases(q, boots[..i] + [b]);
      }
    } else {
      var i: nat :| i < |boots| && !AtMost(AcceptedAcross(q, boots[..i]), boots[i].initial);
      UncarriedReplays(q, boots, i);
    }
  }

  lemma CarriedPrefix(q: QuorumRules, boots: seq<Boot>, i: nat, b: Boot)
    requires Carried(q, boots) && Instead(boots, i, b)
    ensures Carried(q, boots[..i] + [b])
  {
    var instead := boots[..i] + [b];
    forall j | 0 <= j < |instead| ensures AtMost(AcceptedAcross(q, instead[..j]), instead[j].initial) {
      assert instead[..j] == boots[..j];
    }
  }

  /** A life that begins at v accepts again something that was accepted before. */
  ghost predicate Repeats(q: QuorumRules, boots: seq<Boot>, v: Uint64, b: Boot) {
    b.initial == v && exists r :: r in AcceptedAcross(q, boots) && r in AcceptedIn(q, b)
  }

  /** No life that begins at v, whatever it finds and is offered, accepts any record that was
      accepted before, exactly if v is at least the greatest version among those. */
  lemma OldRefusedIff(q: QuorumRules, boots: seq<Boot>, v: Uint64)
    ensures (forall b :: !Repeats(q, boots, v, b)) <==> AtMost(AcceptedAcross(q, boots), v)
  {
    if AtMost(AcceptedAcross(q, boots), v) {
      forall b ensures !Repeats(q, boots, v, b) {
        AcceptedIncrease(q, b.initial, Presented(b.content, b.attempt) + b.offered);
      }
    } else {
      var k: nat :| k < |AcceptedAcross(q, boots)| && AcceptedAcross(q, boots)[k].version > v;
      var r := AcceptedAcross(q, boots)[k];
      AcrossHaveQuorum(q, boots);
      FindingAccepts(q, v, r);
      assert r in AcceptedAcross(q, boots) && r in AcceptedIn(q, Finding(v, r));
      assert Repeats(q, boots, v, Finding(v, r));
    }
  }
}
