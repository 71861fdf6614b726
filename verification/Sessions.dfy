/** Session values: participants, flags, phases, and the manager's tables (session/manager.go). */
module Sessions {
  import opened Basics
  import opened Attestation
  import Nonces

  datatype Status =
    | SessionPending | SessionAttesting | SessionCommit | SessionSign
    | SessionComplete | SessionFailed | SessionExpired

  datatype Participant = Participant(signerID: Bytes, attested: bool, attestationTime: int,
                                     commitmentReceived: bool, shareReceived: bool)

  datatype SessionError =
    | ErrSessionNotFound
    | ErrSessionExpired
    | ErrSignerNotEnrolled
    | ErrSignerNotActive
    | ErrAttestationRequired
    | ErrInsufficientSigners
    | ErrWrongPhase
    | ErrNonce(verdict: Nonces.NonceVerdict)
    | ErrRejected(code: RejectCode)
    | ErrRandomSource

  /** A session ID, a nonce, or nothing of interest, on success. */
  type Answer = Result<Bytes, SessionError>

  const DONE: Answer := Ok([])

  datatype SessionValue = SessionValue(
    id: Bytes, status: Status, participants: seq<Participant>, threshold: int,
    payloadHash: Digest, createdAt: int, expiresAt: int, attestations: map<Bytes, Document>)

  datatype Request = Request(requestID: Bytes, payloadHash: Digest, requiredSigners: seq<Bytes>)

  /** The three maps of the manager. */
  datatype Table = Table(sessions: map<Bytes, SessionValue>, requestIndex: map<Bytes, Bytes>,
                         byPayload: map<Bytes, Bytes>)

  // ---- Participants and their flags ----

  datatype Flag = Attested | Committed | Shared

  function Has(p: Participant, f: Flag): bool {
    match f
    case Attested => p.attested
    case Committed => p.commitmentReceived
    case Shared => p.shareReceived
  }

  function Raise(p: Participant, f: Flag, now: int): Participant {
    match f
    case Attested => p.(attested := true, attestationTime := now)
    case Committed => p.(commitmentReceived := true)
    case Shared => p.(shareReceived := true)
  }

  function NewParticipant(id: Bytes): Participant {
    Participant(id, false, 0, false, false)
  }

  /** The first position of an ID, or the length if there is none. */
  function Position(ps: seq<Participant>, id: Bytes): (i: nat)
    ensures i <= |ps|
    ensures i < |ps| ==> ps[i].signerID == id
    ensures forall j :: 0 <= j < i ==> ps[j].signerID != id
  {
    if ps == [] then 0 else if ps[0].signerID == id then 0 else 1 + Position(ps[1..], id)
  }

  /** What the counting loops count: positions whose flag is set. */
  function Count(ps: seq<Participant>, f: Flag): (c: nat)
    ensures c <= |ps|
  {
    if ps == [] then 0
    else Count(ps[..|ps| - 1], f) + (if Has(ps[|ps| - 1], f) then 1 else 0)
  }

  ghost function Ids(ps: seq<Participant>): set<Bytes> {
    set i | 0 <= i < |ps| :: ps[i].signerID
  }

  /** The distinct signers with a flag. */
  ghost function Flagged(ps: seq<Participant>, f: Flag): set<Bytes> {
    set i | 0 <= i < |ps| && Has(ps[i], f) :: ps[i].signerID
  }

  /** Flags are only ever set on an ID's first position. */
  ghost predicate FirstOnly(ps: seq<Participant>) {
    forall i, f :: 0 <= i < |ps| && Has(ps[i], f) ==> Position(ps, ps[i].signerID) == i
  }

  /** Sets a flag on the first position of an ID, if there is one. */
  function RaiseFirst(ps: seq<Participant>, id: Bytes, f: Flag, now: int): (r: seq<Participant>)
    ensures |r| == |ps|
  {
    var i := Position(ps, id);
    if i < |ps| then ps[i := Raise(ps[i], f, now)] else ps
  }

  lemma {:induction false} PositionUnique(ps: seq<Participant>, id: Bytes, i: nat)
    requires i <= |ps| && (i < |ps| ==> ps[i].signerID == id)
    requires forall j :: 0 <= j < i ==> ps[j].signerID != id
    ensures Position(ps, id) == i
  {
  }

  lemma FrontFirstOnly(ps: seq<Participant>)
    requires ps != [] && FirstOnly(ps)
    ensures FirstOnly(ps[..|ps| - 1])
  {
    var front := ps[..|ps| - 1];
    forall i, g | 0 <= i < |front| && Has(front[i], g) ensures Position(front, front[i].signerID) == i {
      assert Has(ps[i], g) && Position(ps, ps[i].signerID) == i;
      PositionUnique(front, front[i].signerID, i);
    }
  }

  lemma LastIsNew(ps: seq<Participant>, f: Flag)
    requires ps != [] && FirstOnly(ps) && Has(ps[|ps| - 1], f)
    ensures ps[|ps| - 1].signerID !in Flagged(ps[..|ps| - 1], f)
  {
    var n := |ps| - 1;
    assert Position(ps, ps[n].signerID) == n;
    forall i | 0 <= i < n ensures ps[..n][i].signerID != ps[n].signerID {
      assert ps[..n][i] == ps[i];
    }
  }

  lemma {:induction false} CountIsDistinct(ps: seq<Participant>, f: Flag)
    requires FirstOnly(ps)
    ensures Count(ps, f) == |Flagged(ps, f)|
  {
    if ps == [] {
      assert Flagged(ps, f) == {};
    } else {
      var n := |ps| - 1;
      FrontFirstOnly(ps);
      CountIsDistinct(ps[..n], f);
      FlaggedSnoc(ps, f);
      if Has(ps[n], f) {
        LastIsNew(ps, f);
      }
    }
  }

  lemma FlaggedSnoc(ps: seq<Participant>, f: Flag)
    requires ps != []
    ensures var n := |ps| - 1;
            Flagged(ps, f) == Flagged(ps[..n], f) + (if Has(ps[n], f) then {ps[n].signerID} else {})
  {
    var n := |ps| - 1;
    forall x ensures x in Flagged(ps, f) <==>
                     x in Flagged(ps[..n], f) + (if Has(ps[n], f) then {ps[n].signerID} else {})
    {
      if x in Flagged(ps, f) {
        var i :| 0 <= i < |ps| && Has(ps[i], f) && ps[i].signerID == x;
        if i < n { assert ps[..n][i] == ps[i]; }
      }
      if x in Flagged(ps[..n], f) {
        var i :| 0 <= i < n && Has(ps[..n][i], f) && ps[..n][i].signerID == x;
        assert ps[i] == ps[..n][i];
      }
    }
  }

  /** Raising a flag changes nothing but that flag of that signer. */
  lemma RaiseFirstEffect(ps: seq<Participant>, id: Bytes, f: Flag, now: int)
    requires FirstOnly(ps)
    ensures var r := RaiseFirst(ps, id, f, now);
            && FirstOnly(r)
            && (forall i :: 0 <= i < |ps| ==> r[i].signerID == ps[i].signerID)
            && Ids(r) == Ids(ps)
            && Flagged(r, f) == Flagged(ps, f) + (if id in Ids(ps) then {id} else {})
            && (forall g :: g != f ==> Flagged(r, g) == Flagged(ps, g))
  {
    var k := Position(ps, id);
    var r := RaiseFirst(ps, id, f, now);
    assert k < |ps| <==> id in Ids(ps) by {
      if k < |ps| { assert ps[k].signerID == id; }
      if id in Ids(ps) { var i :| 0 <= i < |ps| && ps[i].signerID == id; }
    }
    forall x ensures Position(r, x) == Position(ps, x) {
      PositionUnique(r, x, Position(ps, x));
    }
    forall i | 0 <= i < |ps| ensures r[i].signerID == ps[i].signerID {}
    FlagsAfter(ps, r, k, f);
  }

  /** Two lists that differ at most in flag f at position k, where r has it. */
  lemma FlagsAfter(ps: seq<Participant>, r: seq<Participant>, k: nat, f: Flag)
    requires |r| == |ps| && k <= |ps|
    requires forall i :: 0 <= i < |ps| ==> r[i].signerID == ps[i].signerID
    requires forall i, g :: 0 <= i < |ps| && (i != k || g != f) ==> Has(r[i], g) == Has(ps[i], g)
    requires k < |ps| ==> Has(r[k], f)
    ensures Ids(r) == Ids(ps)
    ensures Flagged(r, f) == Flagged(ps, f) + (if k < |ps| then {ps[k].signerID} else {})
    ensures forall g :: g != f ==> Flagged(r, g) == Flagged(ps, g)
  {
    forall x ensures x in Ids(r) <==> x in Ids(ps) {
      if x in Ids(r) { var i :| 0 <= i < |r| && r[i].signerID == x; assert ps[i].signerID == x; }
      if x in Ids(ps) { var i :| 0 <= i < |ps| && ps[i].signerID == x; assert r[i].signerID == x; }
    }
    forall g, x ensures x in Flagged(r, g) <==>
                        x in Flagged(ps, g) || (g == f && k < |ps| && x == ps[k].signerID)
    {
      if x in Flagged(r, g) {
        var i :| 0 <= i < |r| && Has(r[i], g) && r[i].signerID == x;
        assert ps[i].signerID == x;
      }
      if x in Flagged(ps, g) {
        var i :| 0 <= i < |ps| && Has(ps[i], g) && ps[i].signerID == x;
        assert Has(r[i], g) && r[i].signerID == x;
      }
      if g == f && k < |ps| && x == ps[k].signerID {
        assert Has(r[k], g) && r[k].signerID == x;
      }
    }
  }

  lemma FlaggedAreIds(ps: seq<Participant>, f: Flag)
    ensures Flagged(ps, f) <= Ids(ps)
  {
  }

  lemma FlaggedAtPosition(ps: seq<Participant>, id: Bytes, f: Flag)
    requires FirstOnly(ps)
    ensures id in Flagged(ps, f) <==> Position(ps, id) < |ps| && Has(ps[Position(ps, id)], f)
  {
    if id in Flagged(ps, f) {
      var i :| 0 <= i < |ps| && Has(ps[i], f) && ps[i].signerID == id;
    }
  }
}
