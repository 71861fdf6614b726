/** One-time nonces with expiry and garbage collection (attestation/nonce.go). */
module Nonces {
  import opened Basics

  datatype Entry = Entry(issuedAt: int, used: bool)

  type Store = map<Bytes, Entry>

  datatype NonceVerdict = Accepted | Unknown | AlreadyUsed | Expired

  function IssueIn(m: Store, nonce: Bytes, now: int): Store {
    m[nonce := Entry(now, false)]
  }

  function Judge(m: Store, maxAge: int, nonce: Bytes, now: int): NonceVerdict {
    if nonce !in m then Unknown
    else if m[nonce].used then AlreadyUsed
    else if now - m[nonce].issuedAt > maxAge then Expired
    else Accepted
  }

  function ValidateIn(m: Store, maxAge: int, nonce: Bytes, now: int): Store {
    if Judge(m, maxAge, nonce, now).Accepted? then m[nonce := m[nonce].(used := true)] else m
  }

  /** What Cleanup keeps: entries not older than twice the maximum age. */
  function CleanIn(m: Store, maxAge: int, now: int): Store {
    map n | n in m && m[n].issuedAt >= now - maxAge * 2 :: m[n]
  }

  class NonceManager {
    const length: nat
    const maxAge: int
    var issued: Store

    constructor (length: nat, maxAge: int)
      ensures this.length == length && this.maxAge == maxAge && issued == map[]
    {
      this.length := length;
      this.maxAge := maxAge;
      issued := map[];
    }

    /** `drawn` is what the random source yields: a string of the configured length, or a failure. */
    method Issue(drawn: Option<Bytes>, now: int) returns (r: Option<Bytes>)
      requires drawn.Some? ==> |drawn.value| == length
      modifies this
      ensures r == drawn
      ensures issued == if drawn.Some? then IssueIn(old(issued), drawn.value, now) else old(issued)
    {
      if drawn.None? {
        return None;
      }
      issued := issued[drawn.value := Entry(now, false)];
      return drawn;
    }

    method Validate(nonce: Bytes, now: int) returns (v: NonceVerdict)
      modifies this
      ensures v == Judge(old(issued), maxAge, nonce, now)
      ensures issued == ValidateIn(old(issued), maxAge, nonce, now)
    {
      if nonce !in issued {
        return Unknown;
      }
      var entry := issued[nonce];
      if entry.used {
        return AlreadyUsed;
      }
      var age := now - entry.issuedAt;
      if age > maxAge {
        return Expired;
      }
      issued := issued[nonce := entry.(used := true)];
      return Accepted;
    }

    /** Ranges over the map in an arbitrary order, deleting as it goes. */
    method Cleanup(now: int) returns (removed: nat)
      modifies this
      ensures issued == CleanIn(old(issued), maxAge, now)
      ensures removed == |old(issued)| - |issued|
    {
      var cutoff := now + -maxAge * 2;
      removed := 0;
      var pending := issued.Keys;
      ghost var was := issued;
      while pending != {}
        invariant pending <= issued.Keys <= was.Keys
        invariant forall n :: n in issued ==> issued[n] == was[n]
        invariant forall n :: n in was && n !in pending ==> (n in issued <==> was[n].issuedAt >= cutoff)
        invariant removed == |was| - |issued|
        decreases pending
      {
        var key :| key in pending;
        pending := pending - {key};
        if issued[key].issuedAt < cutoff {
          assert (issued - {key}).Keys == issued.Keys - {key};
          issued := issued - {key};
          removed := removed + 1;
        }
      }
    }
  }

  // ---- Runs: the forgetful manager against one that never forgets ----

  datatype Call = IssueCall(nonce: Bytes, now: int) | ValidateCall(nonce: Bytes, now: int) | CleanupCall(now: int)

  function After(m: Store, maxAge: int, c: Call): Store {
    match c
    case IssueCall(n, now) => IssueIn(m, n, now)
    case ValidateCall(n, now) => ValidateIn(m, maxAge, n, now)
    case CleanupCall(now) => CleanIn(m, maxAge, now)
  }

  function Accepts(m: Store, maxAge: int, c: Call): bool {
    c.ValidateCall? && Judge(m, maxAge, c.nonce, c.now).Accepted?
  }

  /** What a call that presents a nonce is told. */
  function Told(m: Store, maxAge: int, c: Call): Option<NonceVerdict> {
    if c.ValidateCall? then Some(Judge(m, maxAge, c.nonce, c.now)) else None
  }

  function Answers(m: Store, maxAge: int, calls: seq<Call>): (r: seq<Option<NonceVerdict>>)
    ensures |r| == |calls|
    decreases |calls|
  {
    if calls == [] then []
    else [Told(m, maxAge, calls[0])] + Answers(After(m, maxAge, calls[0]), maxAge, calls[1..])
  }

  /** The same calls on a manager whose Cleanup does nothing. */
  function AnswersNeverForgetting(m: Store, maxAge: int, calls: seq<Call>): (r: seq<Option<NonceVerdict>>)
    ensures |r| == |calls|
    decreases |calls|
  {
    if calls == [] then []
    else
      var c := calls[0];
      var m' := if c.CleanupCall? then m else After(m, maxAge, c);
      [Told(m, maxAge, c)] + AnswersNeverForgetting(m', maxAge, calls[1..])
  }

  /** One answer, except that "unknown" may stand for "already used" or "expired". */
  predicate SameAnswer(forgetful: Option<NonceVerdict>, full: Option<NonceVerdict>) {
    forgetful == full || (forgetful == Some(Unknown) && full in {Some(AlreadyUsed), Some(Expired)})
  }

  ghost predicate SameAnswers(forgetful: seq<Option<NonceVerdict>>, full: seq<Option<NonceVerdict>>) {
    |forgetful| == |full| && forall i :: 0 <= i < |full| ==> SameAnswer(forgetful[i], full[i])
  }

  /** The clock does not run backwards from `start` on. */
  predicate Monotone(start: int, calls: seq<Call>)
    decreases |calls|
  {
    calls == [] || (start <= calls[0].now && Monotone(calls[0].now, calls[1..]))
  }

  /** `m` is `full` with some entries forgotten, each of them too old to be accepted from `now` on. */
  ghost predicate Forgot(m: Store, full: Store, maxAge: int, now: int) {
    && (forall n :: n in m ==> n in full && full[n] == m[n])
    && (forall n :: n in full ==> full[n].issuedAt <= now)
    && (forall n :: n in full && n !in m ==> now - full[n].issuedAt > maxAge)
  }

  /** Forgetting old entries is invisible to the accepted, and to the refused but for the kind
      of refusal: under a clock that does not run backwards every call is answered as by a
      manager that keeps every entry, whatever the maximum age. */
  lemma {:induction false} CleanupInvisible(m: Store, full: Store, maxAge: int, now: int, calls: seq<Call>)
    requires Forgot(m, full, maxAge, now) && Monotone(now, calls)
    ensures SameAnswers(Answers(m, maxAge, calls), AnswersNeverForgetting(full, maxAge, calls))
    decreases |calls|
  {
    if calls == [] {
    } else {
      var c := calls[0];
      var m' := After(m, maxAge, c);
      var full' := if c.CleanupCall? then full else After(full, maxAge, c);
      assert SameAnswer(Told(m, maxAge, c), Told(full, maxAge, c));
      CleanupInvisible(m', full', maxAge, c.now, calls[1..]);
    }
  }

  /** In particular for every run of a manager that starts empty. */
  lemma CleanupInvisibleFromStart(maxAge: int, start: int, calls: seq<Call>)
    requires Monotone(start, calls)
    ensures SameAnswers(Answers(map[], maxAge, calls), AnswersNeverForgetting(map[], maxAge, calls))
  {
    CleanupInvisible(map[], map[], maxAge, start, calls);
  }

  function Issues(calls: seq<Call>, nonce: Bytes): nat
    decreases |calls|
  {
    if calls == [] then 0
    else (if calls[0].IssueCall? && calls[0].nonce == nonce then 1 else 0) + Issues(calls[1..], nonce)
  }

  function Acceptances(m: Store, maxAge: int, calls: seq<Call>, nonce: Bytes): nat
    decreases |calls|
  {
    if calls == [] then 0
    else
      (if Accepts(m, maxAge, calls[0]) && calls[0].nonce == nonce then 1 else 0)
      + Acceptances(After(m, maxAge, calls[0]), maxAge, calls[1..], nonce)
  }

  /** One acceptance is in store for a nonce that is present and unused. */
  function Outstanding(m: Store, nonce: Bytes): nat {
    if nonce in m && !m[nonce].used then 1 else 0
  }

  /** No nonce is accepted more often than it was issued, so a nonce drawn once is accepted at
      most once, whatever clock readings the calls see. */
  lemma {:induction false} AcceptedAtMostOncePerIssue(m: Store, maxAge: int, calls: seq<Call>, nonce: Bytes)
    ensures Acceptances(m, maxAge, calls, nonce) <= Outstanding(m, nonce) + Issues(calls, nonce)
    decreases |calls|
  {
    if calls == [] {
    } else {
      AcceptedAtMostOncePerIssue(After(m, maxAge, calls[0]), maxAge, calls[1..], nonce);
    }
  }

  // ---- The fate of an issued nonce ----

  /** The store after these calls. */
  function StoreAfter(m: Store, maxAge: int, calls: seq<Call>): Store {
    if calls == [] then m
    else After(StoreAfter(m, maxAge, calls[..|calls| - 1]), maxAge, calls[|calls| - 1])
  }

  ghost predicate Reissued(calls: seq<Call>, nonce: Bytes) {
    exists i :: 0 <= i < |calls| && calls[i].IssueCall? && calls[i].nonce == nonce
  }

  /** A clean-up has come after this instant. */
  ghost predicate SweptAfter(calls: seq<Call>, limit: int) {
    exists i :: 0 <= i < |calls| && calls[i].CleanupCall? && calls[i].now > limit
  }

  /** The nonce has been presented in time, before any clean-up that removes it. */
  ghost predicate Spent(calls: seq<Call>, nonce: Bytes, issuedAt: int, maxAge: int) {
    exists i :: 0 <= i < |calls| && calls[i].ValidateCall? && calls[i].nonce == nonce
                && calls[i].now - issuedAt <= maxAge && !SweptAfter(calls[..i], issuedAt + 2 * maxAge)
  }

  lemma SweptSnoc(calls: seq<Call>, limit: int)
    requires calls != []
    ensures var n := |calls| - 1;
            SweptAfter(calls, limit) <==>
            SweptAfter(calls[..n], limit) || (calls[n].CleanupCall? && calls[n].now > limit)
  {
    var n := |calls| - 1;
    if SweptAfter(calls[..n], limit) {
      var i :| 0 <= i < n && calls[..n][i].CleanupCall? && calls[..n][i].now > limit;
      assert calls[i] == calls[..n][i];
    }
    if SweptAfter(calls, limit) {
      var i :| 0 <= i < |calls| && calls[i].CleanupCall? && calls[i].now > limit;
      if i < n { assert calls[..n][i] == calls[i]; }
    }
  }

  lemma SpentSnoc(calls: seq<Call>, nonce: Bytes, issuedAt: int, maxAge: int)
    requires calls != []
    ensures var n := |calls| - 1;
            Spent(calls, nonce, issuedAt, maxAge) <==>
            || Spent(calls[..n], nonce, issuedAt, maxAge)
            || (calls[n].ValidateCall? && calls[n].nonce == nonce && calls[n].now - issuedAt <= maxAge
                && !SweptAfter(calls[..n], issuedAt + 2 * maxAge))
  {
    var n := |calls| - 1;
    var front := calls[..n];
    forall i | 0 <= i < n ensures front[i] == calls[i] && front[..i] == calls[..i] {}
    if Spent(front, nonce, issuedAt, maxAge) {
      var i :| 0 <= i < n && front[i].ValidateCall? && front[i].nonce == nonce
               && front[i].now - issuedAt <= maxAge && !SweptAfter(front[..i], issuedAt + 2 * maxAge);
      assert calls[i].ValidateCall?;
    }
    if Spent(calls, nonce, issuedAt, maxAge) {
      var i :| 0 <= i < |calls| && calls[i].ValidateCall? && calls[i].nonce == nonce
               && calls[i].now - issuedAt <= maxAge && !SweptAfter(calls[..i], issuedAt + 2 * maxAge);
      if i < n { assert front[i].ValidateCall?; }
    }
  }

  lemma ReissuedSnoc(calls: seq<Call>, nonce: Bytes)
    requires calls != [] && !Reissued(calls, nonce)
    ensures !Reissued(calls[..|calls| - 1], nonce)
    ensures !(calls[|calls| - 1].IssueCall? && calls[|calls| - 1].nonce == nonce)
  {
    var front := calls[..|calls| - 1];
    forall i | 0 <= i < |front| ensures !(front[i].IssueCall? && front[i].nonce == nonce) {
      assert front[i] == calls[i];
    }
  }

  /** What a nonce issued at t has come to after any calls that do not issue it again. */
  lemma {:induction false} NonceFate(m: Store, maxAge: int, calls: seq<Call>, nonce: Bytes, t: int)
    requires nonce in m && m[nonce] == Entry(t, false) && !Reissued(calls, nonce)
    ensures var m' := StoreAfter(m, maxAge, calls);
            && (nonce in m' <==> !SweptAfter(calls, t + 2 * maxAge))
            && (nonce in m' ==> m'[nonce] == Entry(t, Spent(calls, nonce, t, maxAge)))
    decreases |calls|
  {
    if calls == [] {
    } else {
      ReissuedSnoc(calls, nonce);
      SweptSnoc(calls, t + 2 * maxAge);
      SpentSnoc(calls, nonce, t, maxAge);
      NonceFate(m, maxAge, calls[..|calls| - 1], nonce, t);
    }
  }

  /** What a nonce issued at t is told at any later call: "unknown" once a clean-up has come more
      than twice the maximum age after its issue; until then "already used" if it has been
      presented in time before, however old it is by now; else "expired" past the maximum age. */
  lemma NonceVerdictIs(m: Store, maxAge: int, calls: seq<Call>, nonce: Bytes, t: int, now: int)
    requires !Reissued(calls, nonce)
    ensures Judge(StoreAfter(IssueIn(m, nonce, t), maxAge, calls), maxAge, nonce, now) ==
            if SweptAfter(calls, t + 2 * maxAge) then Unknown
            else if Spent(calls, nonce, t, maxAge) then AlreadyUsed
            else if now > t + maxAge then Expired
            else Accepted
  {
    NonceFate(IssueIn(m, nonce, t), maxAge, calls, nonce, t);
  }

  /** What was never issued is unknown. */
  lemma {:induction false} UnissuedUnknown(m: Store, maxAge: int, calls: seq<Call>, nonce: Bytes, now: int)
    requires nonce !in m && !Reissued(calls, nonce)
    ensures nonce !in StoreAfter(m, maxAge, calls)
    ensures Judge(StoreAfter(m, maxAge, calls), maxAge, nonce, now) == Unknown
    decreases |calls|
  {
    if calls == [] {
    } else {
      ReissuedSnoc(calls, nonce);
      UnissuedUnknown(m, maxAge, calls[..|calls| - 1], nonce, now);
    }
  }
}
