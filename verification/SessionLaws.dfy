/** Laws of a single session: its status is a function of its flags, and only moves forward. */
module SessionLaws {
  import opened Basics
  import opened Attestation
  import opened Sessions
  import opened SessionOps

  /** The status a session's flag counts determine. */
  function StatusOf(ps: seq<Participant>, threshold: int): Status {
    if Count(ps, Attested) < threshold then SessionAttesting
    else if Count(ps, Committed) < threshold then SessionCommit
    else if Count(ps, Shared) < threshold then SessionSign
    else SessionComplete
  }

  /** Counts do not overshoot, and a phase starts only when the one before is over. */
  ghost predicate CountsOk(ps: seq<Participant>, threshold: int) {
    && Count(ps, Committed) <= threshold && Count(ps, Shared) <= threshold
    && (Count(ps, Committed) > 0 ==> Count(ps, Attested) >= threshold)
    && (Count(ps, Shared) > 0 ==> Count(ps, Committed) == threshold)
  }

  /** What holds of every session at all times. */
  ghost predicate Sound(s: SessionValue) {
    && s.threshold > 0
    && FirstOnly(s.participants)
    && s.attestations.Keys == Flagged(s.participants, Attested)
    && Flagged(s.participants, Committed) <= Flagged(s.participants, Attested)
    && Flagged(s.participants, Shared) <= Flagged(s.participants, Attested)
    && CountsOk(s.participants, s.threshold)
    && (s.status == SessionExpired || s.status == StatusOf(s.participants, s.threshold))
  }

  function Rank(st: Status): nat {
    match st
    case SessionPending => 0
    case SessionAttesting => 1
    case SessionCommit => 2
    case SessionSign => 3
    case SessionComplete => 4
    case SessionFailed => 5
    case SessionExpired => 6
  }

  /** A later value of a session: nothing fixed has changed, the status has not gone back, no
      flag is lost, and an expired session is frozen. */
  ghost predicate Evolves(s: SessionValue, s': SessionValue) {
    && Follows(s, s')
    && Rank(s.status) <= Rank(s'.status)
    && (forall f :: Flagged(s.participants, f) <= Flagged(s'.participants, f))
    && (s.status == SessionExpired ==> s' == s)
  }

  lemma EvolvesTransitive(a: SessionValue, b: SessionValue, c: SessionValue)
    requires Evolves(a, b) && Evolves(b, c)
    ensures Evolves(a, c)
  {
    forall f ensures Flagged(a.participants, f) <= Flagged(c.participants, f) {
      assert Flagged(a.participants, f) <= Flagged(b.participants, f);
    }
  }

  lemma CountAfterRaise(ps: seq<Participant>, id: Bytes, f: Flag, now: int)
    requires FirstOnly(ps)
    ensures var r := RaiseFirst(ps, id, f, now);
            && Count(r, f) == Count(ps, f) + (if id in Ids(ps) && id !in Flagged(ps, f) then 1 else 0)
            && (forall g :: g != f ==> Count(r, g) == Count(ps, g))
  {
    var r := RaiseFirst(ps, id, f, now);
    RaiseFirstEffect(ps, id, f, now);
    forall g ensures Count(r, g) == |Flagged(r, g)| && Count(ps, g) == |Flagged(ps, g)| {
      CountIsDistinct(r, g);
      CountIsDistinct(ps, g);
    }
  }

  lemma NewParticipantsClear(ids: seq<Bytes>)
    ensures var ps := NewParticipants(ids);
            && FirstOnly(ps) && (forall f :: Flagged(ps, f) == {} && Count(ps, f) == 0)
            && Ids(ps) == set id | id in ids
  {
    var ps := NewParticipants(ids);
    forall f ensures Flagged(ps, f) == {} && Count(ps, f) == 0 {
      CountIsDistinct(ps, f);
    }
    forall x ensures x in Ids(ps) <==> x in ids {
      if x in ids {
        var i :| 0 <= i < |ids| && ids[i] == x;
        assert ps[i].signerID == x;
      }
    }
  }

  lemma FreshSessionSound(c: Rules, threshold: int, req: Request, ids: seq<Bytes>, id: Bytes, now: int)
    requires threshold > 0
    ensures Sound(FreshSession(c, threshold, req, ids, id, now))
  {
    NewParticipantsClear(ids);
  }

  /** A participant has a position. */
  lemma TakesIsMember(s: SessionValue, signerID: Bytes)
    ensures Takes(s, signerID) <==> signerID in Ids(s.participants)
  {
    var i := Position(s.participants, signerID);
    if i < |s.participants| { assert s.participants[i].signerID == signerID; }
    if signerID in Ids(s.participants) {
      var j :| 0 <= j < |s.participants| && s.participants[j].signerID == signerID;
    }
  }

  /** The next status when signer `id` raises flag f: the code's own test, on the counts. */
  ghost predicate RaisedTo(s: SessionValue, s': SessionValue, id: Bytes, f: Flag) {
    && s'.threshold == s.threshold && FirstOnly(s'.participants)
    && id in Ids(s.participants)
    && Flagged(s'.participants, f) == Flagged(s.participants, f) + {id}
    && Count(s'.participants, f) == Count(s.participants, f) + (if id in Flagged(s.participants, f) then 0 else 1)
    && (forall g :: g != f ==> Flagged(s'.participants, g) == Flagged(s.participants, g)
                               && Count(s'.participants, g) == Count(s.participants, g))
  }

  lemma RaisedAttestSound(s: SessionValue, s': SessionValue, id: Bytes)
    requires Sound(s) && RaisedTo(s, s', id, Attested)
    requires s'.attestations.Keys == s.attestations.Keys + {id}
    requires s'.status == if s.status == SessionAttesting && Count(s'.participants, Attested) >= s.threshold
                          then SessionCommit else s.status
    ensures Sound(s')
  {
    assert Count(s'.participants, Committed) == Count(s.participants, Committed);
    assert Count(s'.participants, Shared) == Count(s.participants, Shared);
    assert Flagged(s'.participants, Committed) == Flagged(s.participants, Committed);
    assert Flagged(s'.participants, Shared) == Flagged(s.participants, Shared);
  }

  lemma RaisedRecordSound(s: SessionValue, s': SessionValue, id: Bytes, f: Flag)
    requires f != Attested && Sound(s) && RaisedTo(s, s', id, f) && id in Flagged(s.participants, Attested)
    requires s.status == PhaseFor(f) && s'.attestations == s.attestations
    requires s'.status == if Count(s'.participants, f) >= s.threshold then PhaseAfter(f) else s.status
    ensures Sound(s')
  {
    var g := if f == Committed then Shared else Committed;
    assert Count(s'.participants, g) == Count(s.participants, g);
    assert Count(s'.participants, Attested) == Count(s.participants, Attested);
    assert Flagged(s'.participants, g) == Flagged(s.participants, g);
    assert Flagged(s'.participants, Attested) == Flagged(s.participants, Attested);
  }

  lemma AttestKeepsSound(s: SessionValue, signerID: Bytes, doc: Document, now: int)
    requires Sound(s) && Takes(s, signerID)
    ensures Sound(Attest(s, signerID, doc, now))
  {
    TakesIsMember(s, signerID);
    RaiseFirstEffect(s.participants, signerID, Attested, now);
    CountAfterRaise(s.participants, signerID, Attested, now);
    RaisedAttestSound(s, Attest(s, signerID, doc, now), signerID);
  }

  lemma AttestEvolves(s: SessionValue, signerID: Bytes, doc: Document, now: int)
    requires Sound(s) && s.status != SessionExpired
    ensures Evolves(s, Attest(s, signerID, doc, now))
  {
    AttestFollows(s, signerID, doc, now);
    RaiseFirstEffect(s.participants, signerID, Attested, now);
  }

  /** Recording requires an attested signer, or no participant at all. */
  ghost predicate MayRecord(s: SessionValue, signerID: Bytes, f: Flag) {
    && f != Attested && s.status == PhaseFor(f)
    && (Takes(s, signerID) ==> s.participants[Position(s.participants, signerID)].attested)
  }

  lemma RecordKeepsSound(s: SessionValue, signerID: Bytes, f: Flag)
    requires Sound(s) && MayRecord(s, signerID, f)
    ensures Sound(RecordOn(s, signerID, f))
  {
    TakesIsMember(s, signerID);
    if Takes(s, signerID) {
      RaiseFirstEffect(s.participants, signerID, f, 0);
      CountAfterRaise(s.participants, signerID, f, 0);
      FlaggedAtPosition(s.participants, signerID, Attested);
      RaisedRecordSound(s, RecordOn(s, signerID, f), signerID, f);
    } else {
      assert RecordOn(s, signerID, f) == s;
    }
  }

  lemma RecordEvolves(s: SessionValue, signerID: Bytes, f: Flag)
    requires Sound(s) && MayRecord(s, signerID, f)
    ensures Evolves(s, RecordOn(s, signerID, f))
  {
    RecordFollows(s, signerID, f);
    RaiseFirstEffect(s.participants, signerID, f, 0);
  }

  /** The status of a session that has not expired, spelt out in distinct signers. */
  lemma StatusMeaning(s: SessionValue)
    requires Sound(s) && s.status != SessionExpired
    ensures var a := |Flagged(s.participants, Attested)|;
            var c, h := |Flagged(s.participants, Committed)|, |Flagged(s.participants, Shared)|;
            && (s.status == SessionAttesting <==> a < s.threshold)
            && (s.status == SessionCommit <==> a >= s.threshold && c < s.threshold)
            && (s.status == SessionSign <==> c == s.threshold && h < s.threshold)
            && (s.status == SessionComplete <==> c == s.threshold && h == s.threshold)
            && (s.status == SessionAttesting ==> c == 0 && h == 0)
            && (s.status == SessionCommit ==> h == 0)
  {
    CountIsDistinct(s.participants, Attested);
    CountIsDistinct(s.participants, Committed);
    CountIsDistinct(s.participants, Shared);
  }

  /** A session can only ever get past attesting if its participants include as many distinct
      signers as the threshold, however often the request repeated them. */
  lemma TooFewDistinctSigners(s: SessionValue)
    requires Sound(s) && |Ids(s.participants)| < s.threshold
    ensures s.status == SessionAttesting || s.status == SessionExpired
  {
    CountIsDistinct(s.participants, Attested);
    FlaggedAreIds(s.participants, Attested);
    SubsetSize(Flagged(s.participants, Attested), Ids(s.participants));
  }

  /** Whether every sharer is a committer. The code asks a sharer for an attestation only. */
  ghost predicate SharersCommitted(s: SessionValue) {
    Flagged(s.participants, Shared) <= Flagged(s.participants, Committed)
  }

  /** A recorded share keeps "every sharer has committed" exactly when the signer is no
      participant or has committed, which RecordShare does not check. */
  lemma ShareKeepsCommittedIff(s: SessionValue, signerID: Bytes)
    requires Sound(s) && MayRecord(s, signerID, Shared) && SharersCommitted(s)
    ensures SharersCommitted(RecordOn(s, signerID, Shared)) <==>
            (Takes(s, signerID) ==> s.participants[Position(s.participants, signerID)].commitmentReceived)
  {
    RaiseFirstEffect(s.participants, signerID, Shared, 0);
    TakesIsMember(s, signerID);
    FlaggedAtPosition(s.participants, signerID, Committed);
  }

  /** With no more distinct signers than the threshold, all have committed before any shares. */
  lemma FewSignersShareCommitted(s: SessionValue)
    requires Sound(s) && |Ids(s.participants)| <= s.threshold
    ensures SharersCommitted(s)
  {
    var ids, committed := Ids(s.participants), Flagged(s.participants, Committed);
    CountIsDistinct(s.participants, Committed);
    CountIsDistinct(s.participants, Shared);
    FlaggedAreIds(s.participants, Committed);
    FlaggedAreIds(s.participants, Shared);
    if Flagged(s.participants, Shared) != {} {
      assert |ids - committed| == |ids| - |committed|;
      assert ids - committed == {};
    }
  }
}
