/** How a session completes, what it costs, and when it cannot. */
module Liveness {
  import opened Basics
  import opened Attestation
  import opened Sessions
  import opened SessionOps
  import opened SessionLaws
  import opened Coordinator
  import opened Safety
  import opened Strings
  import Nonces
  import PolicyState

  /** Every call of the run is legal and none is refused. */
  ghost predicate NoneRefused(c: Rules, w: World, es: seq<Event>)
    decreases |es|
  {
    es == [] || (Legal(w, es[0]) && Reply(c, w.state, es[0]).Ok? && NoneRefused(c, Step(c, w, es[0]), es[1..]))
  }

  lemma {:induction false} NoneRefusedAppend(c: Rules, w: World, a: seq<Event>, b: seq<Event>)
    requires NoneRefused(c, w, a) && NoneRefused(c, Run(c, w, a), b)
    ensures NoneRefused(c, w, a + b) && Run(c, w, a + b) == Run(c, Run(c, w, a), b)
    decreases |a|
  {
    if a == [] {
      assert a + b == b;
    } else {
      assert (a + b)[1..] == a[1..] + b;
      NoneRefusedAppend(c, Step(c, w, a[0]), a[1..], b);
    }
  }

  // ---- Attesting ----

  /** One signer's submission: the document, its nonce, and when it is submitted. */
  datatype Ticket = Ticket(signerID: Bytes, doc: Document, nonce: Bytes, at: int)

  function Submits(id: Bytes, plan: seq<Ticket>): (es: seq<Event>)
    ensures |es| == |plan|
  {
    if plan == [] then [] else
      var t := plan[0];
      [Submit(id, t.signerID, Some(t.doc), t.nonce, t.at)] + Submits(id, plan[1..])
  }

  ghost function Signers(plan: seq<Ticket>): set<Bytes> {
    set t | t in plan :: t.signerID
  }

  ghost predicate DistinctNonces(plan: seq<Ticket>) {
    forall i, j :: 0 <= i < j < |plan| ==> plan[i].nonce != plan[j].nonce
  }

  /** The times do not run backwards from `now` on and stay within the deadline. */
  ghost predicate Timely(now: int, deadline: int, plan: seq<Ticket>) {
    && (forall i :: 0 <= i < |plan| ==> now <= plan[i].at <= deadline)
    && (forall i, j :: 0 <= i < j < |plan| ==> plan[i].at <= plan[j].at)
  }

  /** The nonce will be accepted at the time of submission, and the document will pass. */
  ghost predicate Honourable(c: Rules, m: Nonces.Store, t: Ticket) {
    Nonces.Judge(m, c.nonceMaxAge, t.nonce, t.at).Accepted? && Passes(c.verifier, t.doc, t.nonce, t.at)
  }

  ghost predicate AllHonourable(c: Rules, m: Nonces.Store, plan: seq<Ticket>) {
    DistinctNonces(plan) && forall i :: 0 <= i < |plan| ==> Honourable(c, m, plan[i])
  }

  /** A session that takes all these submissions. */
  ghost predicate MayAttest(s: SessionValue, plan: seq<Ticket>) {
    Sound(s) && s.status != SessionExpired && Signers(plan) <= Ids(s.participants)
  }

  /** The rest of a series of submissions to the session, none of which will be refused. */
  ghost predicate ReadyToAttest(c: Rules, w: World, id: Bytes, plan: seq<Ticket>) {
    && id in w.state.table.sessions
    && MayAttest(w.state.table.sessions[id], plan)
    && Timely(w.history.now, w.state.table.sessions[id].expiresAt, plan)
    && AllHonourable(c, w.state.nonces, plan)
  }

  /** `added` is what the signers flagged f have gained; nothing else has changed. */
  ghost predicate Gained(s: SessionValue, s': SessionValue, f: Flag, added: set<Bytes>) {
    && s'.threshold == s.threshold && Ids(s'.participants) == Ids(s.participants)
    && Flagged(s'.participants, f) == Flagged(s.participants, f) + added
    && (forall g :: g != f ==> Flagged(s'.participants, g) == Flagged(s.participants, g))
  }

  lemma GainedTransitive(a: SessionValue, b: SessionValue, c: SessionValue, f: Flag, x: set<Bytes>, y: set<Bytes>)
    requires Gained(a, b, f, x) && Gained(b, c, f, y)
    ensures Gained(a, c, f, x + y)
  {
    forall g | g != f ensures Flagged(c.participants, g) == Flagged(a.participants, g) {
      assert Flagged(b.participants, g) == Flagged(a.participants, g);
    }
  }

  lemma SignersCons(plan: seq<Ticket>)
    requires plan != []
    ensures Signers(plan) == {plan[0].signerID} + Signers(plan[1..])
  {
    assert plan == [plan[0]] + plan[1..];
  }

  lemma AttestGains(s: SessionValue, plan: seq<Ticket>)
    requires MayAttest(s, plan) && plan != []
    ensures var t := plan[0];
            var s' := Attest(s, t.signerID, t.doc, t.at);
            Takes(s, t.signerID) && MayAttest(s', plan[1..]) && Gained(s, s', Attested, {t.signerID})
  {
    var t := plan[0];
    SignersCons(plan);
    TakesIsMember(s, t.signerID);
    AttestKeepsSound(s, t.signerID, t.doc, t.at);
    RaiseFirstEffect(s.participants, t.signerID, Attested, t.at);
  }

  lemma HonourableAfter(c: Rules, m: Nonces.Store, plan: seq<Ticket>)
    requires AllHonourable(c, m, plan) && plan != []
    ensures AllHonourable(c, Nonces.ValidateIn(m, c.nonceMaxAge, plan[0].nonce, plan[0].at), plan[1..])
  {
    var m' := Nonces.ValidateIn(m, c.nonceMaxAge, plan[0].nonce, plan[0].at);
    forall i | 0 <= i < |plan[1..]| ensures Honourable(c, m', plan[1..][i]) {
      assert plan[1..][i] == plan[i + 1] && Honourable(c, m, plan[i + 1]);
    }
  }

  lemma SubmitAccepted(c: Rules, w: World, id: Bytes, t: Ticket)
    requires id in w.state.table.sessions && Takes(w.state.table.sessions[id], t.signerID)
    requires t.at <= w.state.table.sessions[id].expiresAt && Honourable(c, w.state.nonces, t)
    ensures var e := Submit(id, t.signerID, Some(t.doc), t.nonce, t.at);
            var s' := Next(c, w.state, e);
            && Reply(c, w.state, e).Ok?
            && id in s'.table.sessions
            && s'.table.sessions[id] == Attest(w.state.table.sessions[id], t.signerID, t.doc, t.at)
            && s'.nonces == Nonces.ValidateIn(w.state.nonces, c.nonceMaxAge, t.nonce, t.at)
  {
  }

  lemma AttestStep(c: Rules, w: World, id: Bytes, plan: seq<Ticket>)
    requires ReadyToAttest(c, w, id, plan) && plan != []
    ensures var t := plan[0];
            var e := Submit(id, t.signerID, Some(t.doc), t.nonce, t.at);
            var w' := Step(c, w, e);
            && Legal(w, e) && Reply(c, w.state, e).Ok?
            && ReadyToAttest(c, w', id, plan[1..])
            && Gained(w.state.table.sessions[id], w'.state.table.sessions[id], Attested, {t.signerID})
  {
    var t := plan[0];
    AttestGains(w.state.table.sessions[id], plan);
    assert Honourable(c, w.state.nonces, t);
    SubmitAccepted(c, w, id, t);
    HonourableAfter(c, w.state.nonces, plan);
  }

  lemma {:induction false} AttestPhase(c: Rules, w: World, id: Bytes, plan: seq<Ticket>)
    requires ReadyToAttest(c, w, id, plan)
    ensures NoneRefused(c, w, Submits(id, plan))
    ensures var w' := Run(c, w, Submits(id, plan));
            && ReadyToAttest(c, w', id, [])
            && Gained(w.state.table.sessions[id], w'.state.table.sessions[id], Attested, Signers(plan))
    decreases |plan|
  {
    var es := Submits(id, plan);
    if plan == [] {
      assert Signers(plan) == {};
    } else {
      var w1 := Step(c, w, es[0]);
      AttestStep(c, w, id, plan);
      AttestPhase(c, w1, id, plan[1..]);
      assert es[1..] == Submits(id, plan[1..]);
      SignersCons(plan);
      GainedTransitive(w.state.table.sessions[id], w1.state.table.sessions[id],
                       Run(c, w1, es[1..]).state.table.sessions[id], Attested, {plan[0].signerID}, Signers(plan[1..]));
    }
  }

  // ---- Recording commitments and shares ----

  function Recording(f: Flag, id: Bytes, signerID: Bytes): Event
    requires f != Attested
  {
    if f == Committed then Commitment(id, signerID) else Share(id, signerID)
  }

  function Recordings(f: Flag, id: Bytes, signers: seq<Bytes>): (es: seq<Event>)
    requires f != Attested
    ensures |es| == |signers|
  {
    if signers == [] then [] else [Recording(f, id, signers[0])] + Recordings(f, id, signers[1..])
  }

  ghost predicate Distinct(ids: seq<Bytes>) {
    forall i, j :: 0 <= i < j < |ids| ==> ids[i] != ids[j]
  }

  lemma ElementsCons(ids: seq<Bytes>)
    requires ids != []
    ensures Elements(ids) == {ids[0]} + Elements(ids[1..])
    ensures Distinct(ids) ==> ids[0] !in Elements(ids[1..])
  {
    assert ids == [ids[0]] + ids[1..];
  }

  /** So many recordings of f are still needed, by attested signers without it. */
  ghost predicate Needs(s: SessionValue, f: Flag, signers: seq<Bytes>) {
    && f != Attested && Sound(s)
    && s.status == (if signers == [] then PhaseAfter(f) else PhaseFor(f))
    && Count(s.participants, f) + |signers| == s.threshold
    && Distinct(signers)
    && Elements(signers) <= Flagged(s.participants, Attested) && Elements(signers) !! Flagged(s.participants, f)
  }

  /** The next signer on the list may record f, and does so for the first time. */
  lemma NextMayRecord(s: SessionValue, f: Flag, signers: seq<Bytes>)
    requires Needs(s, f, signers) && signers != []
    ensures MayRecord(s, signers[0], f) && Takes(s, signers[0])
    ensures signers[0] in Ids(s.participants) && signers[0] !in Flagged(s.participants, f)
  {
    assert signers[0] in Elements(signers);
    FlaggedAreIds(s.participants, Attested);
    FlaggedAtPosition(s.participants, signers[0], Attested);
    TakesIsMember(s, signers[0]);
  }

  /** A first recording adds one flag, and the phase ends when enough signers have it. */
  lemma FirstRecordingGains(s: SessionValue, f: Flag, x: Bytes)
    requires f != Attested && Sound(s) && MayRecord(s, x, f)
    requires x in Ids(s.participants) && x !in Flagged(s.participants, f)
    ensures var s' := RecordOn(s, x, f);
            && Sound(s') && Gained(s, s', f, {x})
            && Count(s'.participants, f) == Count(s.participants, f) + 1
            && s'.status == (if Count(s.participants, f) + 1 >= s.threshold then PhaseAfter(f) else PhaseFor(f))
  {
    RecordKeepsSound(s, x, f);
    RaiseFirstEffect(s.participants, x, f, 0);
    CountAfterRaise(s.participants, x, f, 0);
  }

  lemma NeedsAfterRecord(s: SessionValue, f: Flag, signers: seq<Bytes>)
    requires Needs(s, f, signers) && signers != []
    ensures MayRecord(s, signers[0], f)
    ensures Needs(RecordOn(s, signers[0], f), f, signers[1..])
    ensures Gained(s, RecordOn(s, signers[0], f), f, {signers[0]})
  {
    ElementsCons(signers);
    NextMayRecord(s, f, signers);
    FirstRecordingGains(s, f, signers[0]);
  }

  lemma RecordStep(c: Rules, w: World, id: Bytes, f: Flag, signers: seq<Bytes>)
    requires id in w.state.table.sessions && signers != [] && Needs(w.state.table.sessions[id], f, signers)
    ensures var e := Recording(f, id, signers[0]);
            var w' := Step(c, w, e);
            && Legal(w, e) && Reply(c, w.state, e).Ok?
            && id in w'.state.table.sessions && Needs(w'.state.table.sessions[id], f, signers[1..])
            && Gained(w.state.table.sessions[id], w'.state.table.sessions[id], f, {signers[0]})
  {
    NeedsAfterRecord(w.state.table.sessions[id], f, signers);
    RecordAccepted(w, id, signers[0], f);
    RecordingIs(c, w, id, signers[0], f);
  }

  lemma RecordingIs(c: Rules, w: World, id: Bytes, signerID: Bytes, f: Flag)
    requires f != Attested
    ensures var e := Recording(f, id, signerID);
            && Legal(w, e) && Reply(c, w.state, e) == RecordAnswer(w.state.table, id, signerID, f)
            && Next(c, w.state, e).table == RecordIn(w.state.table, id, signerID, f)
  {
  }

  lemma RecordAccepted(w: World, id: Bytes, signerID: Bytes, f: Flag)
    requires id in w.state.table.sessions && MayRecord(w.state.table.sessions[id], signerID, f)
    ensures RecordAnswer(w.state.table, id, signerID, f).Ok?
    ensures var t' := RecordIn(w.state.table, id, signerID, f);
            id in t'.sessions && t'.sessions[id] == RecordOn(w.state.table.sessions[id], signerID, f)
  {
  }

  lemma {:induction false} RecordPhase(c: Rules, w: World, id: Bytes, f: Flag, signers: seq<Bytes>)
    requires id in w.state.table.sessions && Needs(w.state.table.sessions[id], f, signers)
    ensures NoneRefused(c, w, Recordings(f, id, signers))
    ensures var w' := Run(c, w, Recordings(f, id, signers));
            && id in w'.state.table.sessions && Needs(w'.state.table.sessions[id], f, [])
            && Gained(w.state.table.sessions[id], w'.state.table.sessions[id], f, Elements(signers))
    decreases |signers|
  {
    var es := Recordings(f, id, signers);
    if signers == [] {
    } else {
      var w1 := Step(c, w, es[0]);
      RecordStep(c, w, id, f, signers);
      RecordPhase(c, w1, id, f, signers[1..]);
      assert es[1..] == Recordings(f, id, signers[1..]);
      ElementsCons(signers);
      GainedTransitive(w.state.table.sessions[id], w1.state.table.sessions[id],
                       Run(c, w1, es[1..]).state.table.sessions[id], f, {signers[0]}, Elements(signers[1..]));
    }
  }

  // ---- Completion ----

  /** All attest, then some commit, then some share. */
  function Ceremony(id: Bytes, plan: seq<Ticket>, commits: seq<Bytes>, shares: seq<Bytes>): (es: seq<Event>)
    ensures |es| == |plan| + |commits| + |shares|
  {
    Submits(id, plan) + Recordings(Committed, id, commits) + Recordings(Shared, id, shares)
  }

  /** A session nobody has attested to yet. */
  ghost predicate Untouched(s: SessionValue) {
    Sound(s) && s.status == SessionAttesting && forall f :: Flagged(s.participants, f) == {}
  }

  /** Threshold different signers out of the given ones, in any order. */
  ghost predicate Team(ids: seq<Bytes>, threshold: int, signers: set<Bytes>) {
    Distinct(ids) && |ids| == threshold && Elements(ids) <= signers
  }

  lemma AttestedNeedsCommitments(s: SessionValue, s1: SessionValue, signers: set<Bytes>, commits: seq<Bytes>)
    requires Untouched(s) && MayAttest(s1, []) && Gained(s, s1, Attested, signers)
    requires Team(commits, s.threshold, signers)
    ensures Needs(s1, Committed, commits) && Flagged(s1.participants, Shared) == {}
  {
    assert Flagged(s1.participants, Committed) == Flagged(s.participants, Committed) == {};
    assert Flagged(s1.participants, Shared) == Flagged(s.participants, Shared) == {};
    DistinctSize(commits);
    SubsetSize(Elements(commits), signers);
    StatusMeaning(s1);
    CountIsDistinct(s1.participants, Committed);
  }

  lemma DistinctSize(ids: seq<Bytes>)
    requires Distinct(ids)
    ensures |Elements(ids)| == |ids|
  {
    ListingMultiset(ids, Elements(ids));
  }

  lemma CommittedNeedsShares(s1: SessionValue, s2: SessionValue, commits: seq<Bytes>, shares: seq<Bytes>)
    requires Needs(s2, Committed, []) && Gained(s1, s2, Committed, Elements(commits))
    requires Flagged(s1.participants, Shared) == {} && s1.threshold > 0
    requires Team(shares, s1.threshold, Flagged(s1.participants, Attested))
    ensures Needs(s2, Shared, shares)
  {
    assert Flagged(s2.participants, Shared) == {};
    assert Flagged(s2.participants, Attested) == Flagged(s1.participants, Attested);
    CountIsDistinct(s2.participants, Shared);
  }

  /** What a ceremony leaves on a session that was untouched. */
  ghost predicate Completed(s: SessionValue, plan: seq<Ticket>, commits: seq<Bytes>, shares: seq<Bytes>) {
    && s.status == SessionComplete
    && Flagged(s.participants, Attested) == Signers(plan)
    && Flagged(s.participants, Committed) == Elements(commits)
    && Flagged(s.participants, Shared) == Elements(shares)
  }

  lemma CeremonyFlags(s: SessionValue, s1: SessionValue, s2: SessionValue, s3: SessionValue,
                      plan: seq<Ticket>, commits: seq<Bytes>, shares: seq<Bytes>)
    requires Untouched(s) && Gained(s, s1, Attested, Signers(plan))
    requires Gained(s1, s2, Committed, Elements(commits)) && Gained(s2, s3, Shared, Elements(shares))
    requires Needs(s3, Shared, [])
    ensures Completed(s3, plan, commits, shares)
  {
    assert Flagged(s3.participants, Attested) == Flagged(s2.participants, Attested)
        == Flagged(s1.participants, Attested);
    assert Flagged(s3.participants, Committed) == Flagged(s2.participants, Committed);
    assert Flagged(s1.participants, Committed) == Flagged(s.participants, Committed);
    assert Flagged(s2.participants, Shared) == Flagged(s1.participants, Shared) == Flagged(s.participants, Shared);
  }

  /** From an untouched session, any submissions with passing documents and acceptable, distinct
      nonces before the deadline, then commitments by any Threshold different signers among
      them, then shares by any Threshold different signers among them, each in any order,
      complete the session, and none of these calls is refused. */
  lemma ThresholdSignersComplete(c: Rules, w: World, id: Bytes, plan: seq<Ticket>,
                                 commits: seq<Bytes>, shares: seq<Bytes>)
    requires ReadyToAttest(c, w, id, plan) && Untouched(w.state.table.sessions[id])
    requires Team(commits, w.state.table.sessions[id].threshold, Signers(plan))
    requires Team(shares, w.state.table.sessions[id].threshold, Signers(plan))
    ensures |Ceremony(id, plan, commits, shares)| == |plan| + 2 * w.state.table.sessions[id].threshold
    ensures NoneRefused(c, w, Ceremony(id, plan, commits, shares))
    ensures var t' := Run(c, w, Ceremony(id, plan, commits, shares)).state.table;
            id in t'.sessions && Completed(t'.sessions[id], plan, commits, shares)
  {
    var s := w.state.table.sessions[id];
    var submits := Submits(id, plan);
    var recordings, sharings := Recordings(Committed, id, commits), Recordings(Shared, id, shares);
    AttestPhase(c, w, id, plan);
    var w1 := Run(c, w, submits);
    var s1 := w1.state.table.sessions[id];
    AttestedNeedsCommitments(s, s1, Signers(plan), commits);
    RecordPhase(c, w1, id, Committed, commits);
    var w2 := Run(c, w1, recordings);
    var s2 := w2.state.table.sessions[id];
    CommittedNeedsShares(s1, s2, commits, shares);
    RecordPhase(c, w2, id, Shared, shares);
    CeremonyFlags(s, s1, s2, Run(c, w2, sharings).state.table.sessions[id], plan, commits, shares);
    NoneRefusedAppend(c, w, submits, recordings);
    NoneRefusedAppend(c, w, submits + recordings, sharings);
  }

  // ---- From CreateSession to completion ----

  /** A challenge to be issued: for whom, with which nonce, and when. */
  datatype Ask = Ask(signerID: Bytes, nonce: Bytes, at: int)

  function Challenges(id: Bytes, asks: seq<Ask>): (es: seq<Event>)
    ensures |es| == |asks|
  {
    if asks == [] then [] else
      [Challenge(id, asks[0].signerID, Some(asks[0].nonce), asks[0].at)] + Challenges(id, asks[1..])
  }

  ghost function AskedNonces(asks: seq<Ask>): set<Bytes> {
    set a | a in asks :: a.nonce
  }

  /** The challenges are for these signers, in time, each with a nonce of its own and new. */
  ghost predicate Askable(asks: seq<Ask>, signers: set<Bytes>, now: int, until: int, issued: set<Bytes>) {
    && (forall i :: 0 <= i < |asks| ==>
          asks[i].signerID in signers && now <= asks[i].at <= until && asks[i].nonce !in issued)
    && (forall i, j :: 0 <= i < j < |asks| ==> asks[i].at <= asks[j].at && asks[i].nonce != asks[j].nonce)
  }

  /** The store after these challenges: their nonces are fresh in it, all others as they were. */
  ghost predicate Issued(m: Nonces.Store, m': Nonces.Store, asks: seq<Ask>) {
    && (forall i :: 0 <= i < |asks| ==>
          asks[i].nonce in m' && m'[asks[i].nonce] == Nonces.Entry(asks[i].at, false))
    && (forall n :: n in m && n !in AskedNonces(asks) ==> n in m' && m'[n] == m[n])
  }

  lemma AskStep(c: Rules, w: World, id: Bytes, asks: seq<Ask>, until: int)
    requires asks != [] && id in w.state.table.sessions && until <= w.state.table.sessions[id].expiresAt
    requires Askable(asks, Ids(w.state.table.sessions[id].participants), w.history.now, until, w.history.issued.Keys)
    ensures var e := Challenges(id, asks)[0];
            var w' := Step(c, w, e);
            && Legal(w, e) && Reply(c, w.state, e).Ok?
            && w'.state == w.state.(nonces := w.state.nonces[asks[0].nonce := Nonces.Entry(asks[0].at, false)])
            && Askable(asks[1..], Ids(w.state.table.sessions[id].participants), w'.history.now, until,
                       w'.history.issued.Keys)
            && w'.history.now <= until
  {
    TakesIsMember(w.state.table.sessions[id], asks[0].signerID);
  }

  lemma IssuedCons(m: Nonces.Store, m': Nonces.Store, asks: seq<Ask>)
    requires asks != [] && forall i :: 0 < i < |asks| ==> asks[i].nonce != asks[0].nonce
    requires Issued(m[asks[0].nonce := Nonces.Entry(asks[0].at, false)], m', asks[1..])
    ensures Issued(m, m', asks)
  {
    assert asks == [asks[0]] + asks[1..];
    assert asks[0].nonce !in AskedNonces(asks[1..]);
    assert AskedNonces(asks) == {asks[0].nonce} + AskedNonces(asks[1..]);
  }

  lemma {:induction false} ChallengePhase(c: Rules, w: World, id: Bytes, asks: seq<Ask>, until: int)
    requires id in w.state.table.sessions && w.history.now <= until <= w.state.table.sessions[id].expiresAt
    requires Askable(asks, Ids(w.state.table.sessions[id].participants), w.history.now, until, w.history.issued.Keys)
    ensures NoneRefused(c, w, Challenges(id, asks))
    ensures var w' := Run(c, w, Challenges(id, asks));
            && w'.state.table == w.state.table && w'.history.now <= until
            && Issued(w.state.nonces, w'.state.nonces, asks)
    decreases |asks|
  {
    if asks == [] {
    } else {
      var es := Challenges(id, asks);
      var w1 := Step(c, w, es[0]);
      AskStep(c, w, id, asks, until);
      ChallengePhase(c, w1, id, asks[1..], until);
      assert es[1..] == Challenges(id, asks[1..]);
      IssuedCons(w.state.nonces, Run(c, w1, es[1..]).state.nonces, asks);
    }
  }

  /** Each ticket presents one of the nonces asked for, young enough, with a passing document. */
  ghost predicate Answering(c: Rules, asks: seq<Ask>, plan: seq<Ticket>) {
    && DistinctNonces(plan)
    && forall i :: 0 <= i < |plan| ==> AnswersAsk(c, asks, plan[i])
  }

  ghost predicate AnswersAsk(c: Rules, asks: seq<Ask>, t: Ticket) {
    && Passes(c.verifier, t.doc, t.nonce, t.at)
    && exists a :: a in asks && a.nonce == t.nonce && t.at - a.at <= c.nonceMaxAge
  }

  lemma AnswersHonourable(c: Rules, m: Nonces.Store, m': Nonces.Store, asks: seq<Ask>, plan: seq<Ticket>)
    requires Issued(m, m', asks) && Answering(c, asks, plan)
    ensures AllHonourable(c, m', plan)
  {
    forall i | 0 <= i < |plan| ensures Honourable(c, m', plan[i]) {
      assert AnswersAsk(c, asks, plan[i]);
      var a :| a in asks && a.nonce == plan[i].nonce && plan[i].at - a.at <= c.nonceMaxAge;
      var k :| 0 <= k < |asks| && asks[k] == a;
    }
  }

  /** The session a Create opens is untouched, with the selected signers. */
  lemma OpenedUntouched(c: Rules, w: World, e: Event)
    requires w.state.policy.config.Valid() && Legal(w, e) && Opens(c, w.state, e)
    ensures var id, t' := Reply(c, w.state, e).value, Next(c, w.state, e).table;
            && id in t'.sessions && Untouched(t'.sessions[id])
            && t'.sessions[id].threshold == w.state.policy.config.threshold
            && t'.sessions[id].expiresAt == e.now + c.timeout
            && Ids(t'.sessions[id].participants) == Elements(SelectedIds(e.req, e.listing))
  {
    OpeningAdds(c, w, e);
    OpenedSessionOk(c, w, e);
    NewParticipantsClear(SelectedIds(e.req, e.listing));
  }

  /** Challenges, then a ceremony with the nonces they issued. */
  lemma ChallengedSessionCompletes(c: Rules, w: World, id: Bytes, asks: seq<Ask>, until: int, plan: seq<Ticket>,
                                   commits: seq<Bytes>, shares: seq<Bytes>)
    requires id in w.state.table.sessions && Untouched(w.state.table.sessions[id])
    requires var s := w.state.table.sessions[id];
             && w.history.now <= until <= s.expiresAt
             && Askable(asks, Ids(s.participants), w.history.now, until, w.history.issued.Keys)
             && Signers(plan) <= Ids(s.participants) && Timely(until, s.expiresAt, plan)
             && Team(commits, s.threshold, Signers(plan)) && Team(shares, s.threshold, Signers(plan))
    requires Answering(c, asks, plan)
    ensures var es := Challenges(id, asks) + Ceremony(id, plan, commits, shares);
            var t' := Run(c, w, es).state.table;
            && NoneRefused(c, w, es)
            && id in t'.sessions && Completed(t'.sessions[id], plan, commits, shares)
  {
    ChallengePhase(c, w, id, asks, until);
    var w1 := Run(c, w, Challenges(id, asks));
    AnswersHonourable(c, w.state.nonces, w1.state.nonces, asks, plan);
    ThresholdSignersComplete(c, w1, id, plan, commits, shares);
    NoneRefusedAppend(c, w, Challenges(id, asks), Ceremony(id, plan, commits, shares));
  }

  /** The whole life of a session: it is opened, signers are challenged, and the ceremony
      follows. `until` is any instant between the last challenge and the first submission. */
  lemma OpenedSessionCompletes(c: Rules, w: World, e: Event, asks: seq<Ask>, until: int, plan: seq<Ticket>,
                               commits: seq<Bytes>, shares: seq<Bytes>)
    requires w.state.policy.config.Valid() && Legal(w, e) && Opens(c, w.state, e)
    requires var ids := Elements(SelectedIds(e.req, e.listing));
             && Askable(asks, ids, e.now, until, w.history.issued.Keys)
             && Signers(plan) <= ids
    requires e.now <= until <= e.now + c.timeout && Timely(until, e.now + c.timeout, plan)
    requires Answering(c, asks, plan)
    requires Team(commits, w.state.policy.config.threshold, Signers(plan))
    requires Team(shares, w.state.policy.config.threshold, Signers(plan))
    ensures var id := Reply(c, w.state, e).value;
            var es := [e] + (Challenges(id, asks) + Ceremony(id, plan, commits, shares));
            var t' := Run(c, w, es).state.table;
            && NoneRefused(c, w, es)
            && id in t'.sessions && Completed(t'.sessions[id], plan, commits, shares)
  {
    var id := Reply(c, w.state, e).value;
    var rest := Challenges(id, asks) + Ceremony(id, plan, commits, shares);
    OpenedUntouched(c, w, e);
    ChallengedSessionCompletes(c, Step(c, w, e), id, asks, until, plan, commits, shares);
    assert ([e] + rest)[1..] == rest;
  }

  // ---- One set of signers for commitments and shares? ----

  /** The signers who have shared are among those who committed, at the end of every legal run
      in which the session is still there. */
  ghost predicate AlwaysSharersCommitted(c: Rules, w: World, id: Bytes) {
    forall es :: LegalRun(c, w, es) && id in Run(c, w, es).state.table.sessions ==>
                   SharersCommitted(Run(c, w, es).state.table.sessions[id])
  }

  /** No more distinct signers than the threshold is enough, ... */
  lemma FewSignersAlwaysCommit(c: Rules, w: World, id: Bytes)
    requires Inv(c, w) && id in w.state.table.sessions
    requires |Ids(w.state.table.sessions[id].participants)| <= w.state.policy.config.threshold
    ensures AlwaysSharersCommitted(c, w, id)
  {
    forall es | LegalRun(c, w, es) && id in Run(c, w, es).state.table.sessions
      ensures SharersCommitted(Run(c, w, es).state.table.sessions[id])
    {
      RunKeepsInv(c, w, es);
      ConfigConstant(c, w, es);
      SessionsEvolve(c, w, es, id);
      IdsFollow(w.state.table.sessions[id], Run(c, w, es).state.table.sessions[id]);
      assert SessionOk(Run(c, w, es), id);
      FewSignersShareCommitted(Run(c, w, es).state.table.sessions[id]);
    }
  }

  lemma {:induction false} NoneRefusedIsLegal(c: Rules, w: World, es: seq<Event>)
    requires NoneRefused(c, w, es)
    ensures LegalRun(c, w, es)
    decreases |es|
  {
    if es == [] {
    } else {
      NoneRefusedIsLegal(c, Step(c, w, es[0]), es[1..]);
    }
  }

  /** Two teams of different members: with more signers than the threshold there is room. */
  lemma TwoTeams(signers: set<Bytes>, threshold: int) returns (commits: seq<Bytes>, shares: seq<Bytes>)
    requires 0 < threshold < |signers|
    ensures Team(commits, threshold, signers) && Team(shares, threshold, signers)
    ensures !(Elements(shares) <= Elements(commits))
  {
    var all := SomeListing(signers);
    commits, shares := all[..threshold], all[1..threshold + 1];
    assert forall i, j :: 0 <= i < j < |shares| ==> shares[i] == all[i + 1] && shares[j] == all[j + 1];
    assert shares[threshold - 1] == all[threshold] && all[threshold] in Elements(shares);
    assert all[threshold] !in Elements(commits);
  }

  /** ... and needed: with more, as soon as tickets allow that many to attest, a run in which no
      call is refused completes the session with a sharer who never committed. */
  lemma ManySignersNeedNotCommit(c: Rules, w: World, id: Bytes, plan: seq<Ticket>)
      returns (commits: seq<Bytes>, shares: seq<Bytes>)
    requires ReadyToAttest(c, w, id, plan) && Untouched(w.state.table.sessions[id])
    requires |Signers(plan)| > w.state.table.sessions[id].threshold
    ensures var es := Ceremony(id, plan, commits, shares);
            var t' := Run(c, w, es).state.table;
            && NoneRefused(c, w, es)
            && id in t'.sessions && t'.sessions[id].status == SessionComplete && !SharersCommitted(t'.sessions[id])
  {
    commits, shares := TwoTeams(Signers(plan), w.state.table.sessions[id].threshold);
    ThresholdSignersComplete(c, w, id, plan, commits, shares);
  }

  /** For an untouched session all of whose signers are able to attest: the sharers are always
      among the committers exactly if the distinct signers are no more than the threshold. */
  lemma SharersCommitIff(c: Rules, w: World, id: Bytes, plan: seq<Ticket>)
    requires Inv(c, w) && ReadyToAttest(c, w, id, plan) && Untouched(w.state.table.sessions[id])
    requires Signers(plan) == Ids(w.state.table.sessions[id].participants)
    ensures AlwaysSharersCommitted(c, w, id) <==>
            |Ids(w.state.table.sessions[id].participants)| <= w.state.policy.config.threshold
  {
    assert SessionOk(w, id);
    if |Signers(plan)| <= w.state.policy.config.threshold {
      FewSignersAlwaysCommit(c, w, id);
    } else {
      var commits, shares := ManySignersNeedNotCommit(c, w, id, plan);
      NoneRefusedIsLegal(c, w, Ceremony(id, plan, commits, shares));
    }
  }

  // ---- Are the sharers still active? ----

  lemma {:induction false} PolicyOpsNotRefused(c: Rules, w: World, ops: seq<PolicyState.Operation>)
    ensures NoneRefused(c, w, PolicyOps(ops))
    decreases |ops|
  {
    if ops == [] {
    } else {
      assert PolicyOps(ops)[1..] == PolicyOps(ops[1..]);
      PolicyOpsNotRefused(c, Step(c, w, PolicyOps(ops)[0]), ops[1..]);
    }
  }

  /** Whatever happens to the policy once a session is open, its ceremony goes through. */
  lemma CompletesUnderAnyPolicy(c: Rules, w: World, id: Bytes, ops: seq<PolicyState.Operation>, plan: seq<Ticket>,
                                commits: seq<Bytes>, shares: seq<Bytes>)
    requires ReadyToAttest(c, w, id, plan) && Untouched(w.state.table.sessions[id])
    requires Team(commits, w.state.table.sessions[id].threshold, Signers(plan))
    requires Team(shares, w.state.table.sessions[id].threshold, Signers(plan))
    ensures var es := PolicyOps(ops) + Ceremony(id, plan, commits, shares);
            var s' := Run(c, w, es).state;
            && NoneRefused(c, w, es)
            && id in s'.table.sessions && Completed(s'.table.sessions[id], plan, commits, shares)
            && s'.policy == PolicyState.RunOps(w.state.policy, ops)
  {
    var w1 := Run(c, w, PolicyOps(ops));
    PolicyRun(c, w, ops);
    PolicyOpsNotRefused(c, w, ops);
    ThresholdSignersComplete(c, w1, id, plan, commits, shares);
    NoneRefusedAppend(c, w, PolicyOps(ops), Ceremony(id, plan, commits, shares));
    CeremonyKeepsPolicy(c, w1, id, plan, commits, shares);
  }

  ghost predicate NoPolicyOps(es: seq<Event>) {
    forall i :: 0 <= i < |es| ==> !es[i].PolicyOp?
  }

  lemma {:induction false} PolicyUntouched(c: Rules, w: World, es: seq<Event>)
    requires NoPolicyOps(es)
    ensures Run(c, w, es).state.policy == w.state.policy
    decreases |es|
  {
    if es == [] {
    } else {
      PolicyUntouched(c, Step(c, w, es[0]), es[1..]);
    }
  }

  lemma {:induction false} SubmitsNoPolicy(id: Bytes, plan: seq<Ticket>)
    ensures NoPolicyOps(Submits(id, plan))
  {
    if plan == [] {
    } else {
      SubmitsNoPolicy(id, plan[1..]);
    }
  }

  lemma {:induction false} RecordingsNoPolicy(f: Flag, id: Bytes, signers: seq<Bytes>)
    requires f != Attested
    ensures NoPolicyOps(Recordings(f, id, signers))
  {
    if signers == [] {
    } else {
      RecordingsNoPolicy(f, id, signers[1..]);
    }
  }

  lemma CeremonyKeepsPolicy(c: Rules, w: World, id: Bytes, plan: seq<Ticket>, commits: seq<Bytes>, shares: seq<Bytes>)
    ensures Run(c, w, Ceremony(id, plan, commits, shares)).state.policy == w.state.policy
  {
    SubmitsNoPolicy(id, plan);
    RecordingsNoPolicy(Committed, id, commits);
    RecordingsNoPolicy(Shared, id, shares);
    PolicyUntouched(c, w, Ceremony(id, plan, commits, shares));
  }

  /** The operation takes the active status from one of these signers, or may do so. */
  predicate Demotes(op: PolicyState.Operation, ids: set<Bytes>) {
    (op.Suspend? || op.Revoke?) && op.signerID in ids
  }

  ghost predicate NoneDemoted(es: seq<Event>, ids: set<Bytes>) {
    forall i :: 0 <= i < |es| && es[i].PolicyOp? ==> !Demotes(es[i].op, ids)
  }

  lemma StepKeepsActive(c: Rules, w: World, e: Event, ids: set<Bytes>)
    requires ids <= w.state.policy.ActiveIds() && (e.PolicyOp? ==> !Demotes(e.op, ids))
    ensures ids <= Next(c, w.state, e).policy.ActiveIds()
  {
  }

  lemma {:induction false} RunKeepsActive(c: Rules, w: World, es: seq<Event>, ids: set<Bytes>)
    requires ids <= w.state.policy.ActiveIds() && NoneDemoted(es, ids)
    ensures ids <= Run(c, w, es).state.policy.ActiveIds()
    decreases |es|
  {
    if es == [] {
    } else {
      StepKeepsActive(c, w, es[0], ids);
      RunKeepsActive(c, Step(c, w, es[0]), es[1..], ids);
    }
  }

  /** Every sharer of the session is active. */
  ghost predicate SharersActive(w: World, id: Bytes) {
    id in w.state.table.sessions ==>
      Flagged(w.state.table.sessions[id].participants, Shared) <= w.state.policy.ActiveIds()
  }

  /** At the end of a legal run from a state in which the participants are active, and which
      suspends and revokes none of them, every sharer is still active. */
  lemma UndemotedSharersActive(c: Rules, w: World, es: seq<Event>, id: Bytes)
    requires Inv(c, w) && LegalRun(c, w, es) && id in w.state.table.sessions
    requires Ids(w.state.table.sessions[id].participants) <= w.state.policy.ActiveIds()
    requires NoneDemoted(es, Ids(w.state.table.sessions[id].participants))
    ensures SharersActive(Run(c, w, es), id)
  {
    var w' := Run(c, w, es);
    RunKeepsActive(c, w, es, Ids(w.state.table.sessions[id].participants));
    if id in w'.state.table.sessions {
      SessionsEvolve(c, w, es, id);
      IdsFollow(w.state.table.sessions[id], w'.state.table.sessions[id]);
      FlaggedAreIds(w'.state.table.sessions[id].participants, Shared);
    }
  }

  /** Only these policy operations occur. */
  ghost predicate OpsWithin(es: seq<Event>, allowed: PolicyState.Operation -> bool) {
    forall i :: 0 <= i < |es| && es[i].PolicyOp? ==> allowed(es[i].op)
  }

  /** Whenever the session is complete, all its sharers are active, if only these operations occur. */
  ghost predicate CompleteMeansActive(c: Rules, w: World, id: Bytes, allowed: PolicyState.Operation -> bool) {
    forall es :: LegalRun(c, w, es) && OpsWithin(es, allowed) && CompleteAfter(c, w, es, id) ==>
                   SharersActive(Run(c, w, es), id)
  }

  /** A team with a given member. */
  lemma TeamWith(signers: set<Bytes>, threshold: int, x: Bytes) returns (team: seq<Bytes>)
    requires 0 < threshold <= |signers| && x in signers
    ensures Team(team, threshold, signers) && x in Elements(team)
  {
    var others := SomeListing(signers - {x});
    team := [x] + others[..threshold - 1];
    assert team[0] == x;
    forall y | y in Elements(team) ensures y in signers {
      assert y == x || y in others;
    }
  }

  lemma DemotedInactive(p: PolicyState.Policy, op: PolicyState.Operation)
    requires op.Suspend? || op.Revoke?
    ensures op.signerID !in PolicyState.RunOps(p, [op]).ActiveIds()
  {
    assert [op][1..] == [];
    assert PolicyState.RunOps(p, [op]) == PolicyState.Apply(p, op);
  }

  /** A participant demoted while the session is open shares all the same, and the session ends
      complete with a sharer who is not active. */
  lemma DemotedSignerShares(c: Rules, w: World, id: Bytes, op: PolicyState.Operation, plan: seq<Ticket>)
      returns (team: seq<Bytes>)
    requires ReadyToAttest(c, w, id, plan) && Untouched(w.state.table.sessions[id])
    requires |Signers(plan)| >= w.state.table.sessions[id].threshold && Demotes(op, Signers(plan))
    ensures var es := PolicyOps([op]) + Ceremony(id, plan, team, team);
            && NoneRefused(c, w, es) && CompleteAfter(c, w, es, id)
            && !SharersActive(Run(c, w, es), id)
  {
    team := TeamWith(Signers(plan), w.state.table.sessions[id].threshold, op.signerID);
    CompletesUnderAnyPolicy(c, w, id, [op], plan, team, team);
    DemotedInactive(w.state.policy, op);
  }

  lemma DemotionWithin(c: Rules, w: World, op: PolicyState.Operation, allowed: PolicyState.Operation -> bool,
                       id: Bytes, plan: seq<Ticket>, team: seq<Bytes>)
    requires allowed(op)
    ensures OpsWithin(PolicyOps([op]) + Ceremony(id, plan, team, team), allowed)
  {
    SubmitsNoPolicy(id, plan);
    RecordingsNoPolicy(Committed, id, team);
    RecordingsNoPolicy(Shared, id, team);
    assert PolicyOps([op]) == [PolicyOp(op)];
  }

  lemma AllowedDemotion(c: Rules, w: World, id: Bytes, op: PolicyState.Operation, plan: seq<Ticket>,
                        allowed: PolicyState.Operation -> bool)
    requires ReadyToAttest(c, w, id, plan) && Untouched(w.state.table.sessions[id])
    requires |Signers(plan)| >= w.state.table.sessions[id].threshold && Demotes(op, Signers(plan)) && allowed(op)
    ensures !CompleteMeansActive(c, w, id, allowed)
  {
    var team := DemotedSignerShares(c, w, id, op, plan);
    NoneRefusedIsLegal(c, w, PolicyOps([op]) + Ceremony(id, plan, team, team));
    DemotionWithin(c, w, op, allowed, id, plan, team);
  }

  /** For an untouched session whose signers are active, able to attest and enough: the sharers
      of the complete session are always active exactly if the policy operations that may occur
      suspend and revoke none of its participants. The code never looks at the policy again. */
  lemma SharersActiveIff(c: Rules, w: World, id: Bytes, plan: seq<Ticket>, allowed: PolicyState.Operation -> bool)
    requires Inv(c, w) && ReadyToAttest(c, w, id, plan) && Untouched(w.state.table.sessions[id])
    requires Signers(plan) == Ids(w.state.table.sessions[id].participants) <= w.state.policy.ActiveIds()
    requires |Signers(plan)| >= w.state.table.sessions[id].threshold
    ensures CompleteMeansActive(c, w, id, allowed) <==> forall op :: allowed(op) ==> !Demotes(op, Signers(plan))
  {
    if op :| allowed(op) && Demotes(op, Signers(plan)) {
      AllowedDemotion(c, w, id, op, plan, allowed);
    } else {
      forall es | LegalRun(c, w, es) && OpsWithin(es, allowed) && CompleteAfter(c, w, es, id)
        ensures SharersActive(Run(c, w, es), id)
      {
        UndemotedSharersActive(c, w, es, id);
      }
    }
  }

  // ---- What completion costs ----

  /** The number of flags set on a session. */
  function Total(ps: seq<Participant>): nat {
    Count(ps, Attested) + Count(ps, Committed) + Count(ps, Shared)
  }

  ghost function TotalIn(t: Table, id: Bytes): nat {
    if id in t.sessions then Total(t.sessions[id].participants) else 0
  }

  /** The call sets a flag of the session. */
  ghost predicate SetsFlag(c: Rules, w: World, e: Event, id: Bytes) {
    id in w.state.table.sessions && TotalIn(Next(c, w.state, e).table, id) > TotalIn(w.state.table, id)
  }

  ghost function FlagCalls(c: Rules, w: World, es: seq<Event>, id: Bytes): nat
    decreases |es|
  {
    if es == [] then 0
    else (if SetsFlag(c, w, es[0], id) then 1 else 0) + FlagCalls(c, Step(c, w, es[0]), es[1..], id)
  }

  lemma TotalAfterRaise(ps: seq<Participant>, signerID: Bytes, f: Flag, now: int)
    requires FirstOnly(ps)
    ensures Total(RaiseFirst(ps, signerID, f, now)) <= Total(ps) + 1
  {
    CountAfterRaise(ps, signerID, f, now);
  }

  lemma SubmitSetsOneFlag(c: Rules, w: World, e: Event, id: Bytes)
    requires SessionOk(w, id) && e.Submit? && id in w.state.table.sessions
    ensures TotalIn(Next(c, w.state, e).table, id) <=
            TotalIn(w.state.table, id) + (if e.id == id && Reply(c, w.state, e).Ok? then 1 else 0)
  {
    TotalAfterRaise(w.state.table.sessions[id].participants, e.signerID, Attested, e.now);
  }

  lemma RecordSetsOneFlag(w: World, x: Bytes, signerID: Bytes, f: Flag, id: Bytes)
    requires SessionOk(w, id) && id in w.state.table.sessions
    ensures TotalIn(RecordIn(w.state.table, x, signerID, f), id) <=
            TotalIn(w.state.table, id) + (if x == id && RecordAnswer(w.state.table, x, signerID, f).Ok? then 1 else 0)
  {
    TotalAfterRaise(w.state.table.sessions[id].participants, signerID, f, 0);
  }

  lemma OpenedHasNoFlag(c: Rules, w: World, e: Event, id: Bytes)
    requires Legal(w, e) && id !in w.state.table.sessions && id in Next(c, w.state, e).table.sessions
    ensures TotalIn(Next(c, w.state, e).table, id) == 0
  {
    NewRowsAreOpened(c, w, e, id);
    OpeningAdds(c, w, e);
    NewParticipantsClear(SelectedIds(e.req, e.listing));
  }

  ghost predicate RecordsOn(c: Rules, w: World, e: Event, id: Bytes) {
    (e.Submit? || e.Commitment? || e.Share?) && e.id == id && Reply(c, w.state, e).Ok?
  }

  /** No call sets more than one flag; and a call that sets one is a submission, commitment or
      share for that session that was not refused. */
  lemma StepSetsOneFlag(c: Rules, w: World, e: Event, id: Bytes)
    requires Inv(c, w) && Legal(w, e)
    requires id in Next(c, w.state, e).table.sessions
    ensures TotalIn(Next(c, w.state, e).table, id) <=
            TotalIn(w.state.table, id) + (if SetsFlag(c, w, e, id) then 1 else 0)
    ensures SetsFlag(c, w, e, id) ==> RecordsOn(c, w, e, id)
  {
    assert SessionOk(w, id);
    if id !in w.state.table.sessions {
      OpenedHasNoFlag(c, w, e, id);
    } else {
      match e
      case Create(_, _, _, _) => CreateKeepsRows(c, w, e, id);
      case Submit(_, _, _, _, _) => SubmitSetsOneFlag(c, w, e, id);
      case Commitment(x, signer) => RecordSetsOneFlag(w, x, signer, Committed, id);
      case Share(x, signer) => RecordSetsOneFlag(w, x, signer, Shared, id);
      case Challenge(_, _, _, _) =>
      case Cleanup(_) =>
      case CleanupNonces(_) =>
      case PolicyOp(_) =>
    }
  }

  lemma {:induction false} FlagsCostCalls(c: Rules, w: World, es: seq<Event>, id: Bytes)
    requires Inv(c, w) && LegalRun(c, w, es)
    requires id in Run(c, w, es).state.table.sessions
    ensures TotalIn(Run(c, w, es).state.table, id) <= TotalIn(w.state.table, id) + FlagCalls(c, w, es, id)
    decreases |es|
  {
    if es == [] {
    } else {
      var w' := Step(c, w, es[0]);
      StepKeepsInv(c, w, es[0]);
      FlagsCostCalls(c, w', es[1..], id);
      if id in w'.state.table.sessions {
        StepSetsOneFlag(c, w, es[0], id);
      }
    }
  }

  /** No legal run completes a session that was not there, or was untouched, at its start with
      fewer than 3*Threshold flag-setting calls. */
  lemma CompletionCost(c: Rules, w: World, es: seq<Event>, id: Bytes)
    requires Inv(c, w) && LegalRun(c, w, es)
    requires id in w.state.table.sessions ==> Untouched(w.state.table.sessions[id])
    requires var t' := Run(c, w, es).state.table;
             id in t'.sessions && t'.sessions[id].status == SessionComplete
    ensures FlagCalls(c, w, es, id) >= 3 * w.state.policy.config.threshold
  {
    RunKeepsInv(c, w, es);
    ConfigConstant(c, w, es);
    FlagsCostCalls(c, w, es, id);
    assert SessionOk(Run(c, w, es), id);
    if id in w.state.table.sessions {
      forall f ensures Count(w.state.table.sessions[id].participants, f) == 0 {
        CountIsDistinct(w.state.table.sessions[id].participants, f);
      }
    }
  }

  // ---- When a session cannot complete ----

  /** CreateSession compares the threshold with the number of participants, repetitions
      included; a session with fewer distinct signers than that never gets past attesting. */
  lemma RepeatedSignersNeverComplete(c: Rules, w: World, es: seq<Event>, id: Bytes)
    requires Inv(c, w) && LegalRun(c, w, es)
    requires id in w.state.table.sessions && id in Run(c, w, es).state.table.sessions
    requires |Ids(w.state.table.sessions[id].participants)| < w.state.policy.config.threshold
    ensures var s' := Run(c, w, es).state.table.sessions[id];
            s'.status == SessionAttesting || s'.status == SessionExpired
  {
    RunKeepsInv(c, w, es);
    ConfigConstant(c, w, es);
    SessionsEvolve(c, w, es, id);
    IdsFollow(w.state.table.sessions[id], Run(c, w, es).state.table.sessions[id]);
    assert SessionOk(Run(c, w, es), id);
    TooFewDistinctSigners(Run(c, w, es).state.table.sessions[id]);
  }

  /** Some legal run completes the session. */
  ghost predicate Completable(c: Rules, w: World, id: Bytes) {
    exists es :: LegalRun(c, w, es) && CompleteAfter(c, w, es, id)
  }

  ghost predicate CompleteAfter(c: Rules, w: World, es: seq<Event>, id: Bytes) {
    var t' := Run(c, w, es).state.table;
    id in t'.sessions && t'.sessions[id].status == SessionComplete
  }

  lemma EnoughSignersCompletable(c: Rules, w: World, id: Bytes, plan: seq<Ticket>)
    requires ReadyToAttest(c, w, id, plan) && Untouched(w.state.table.sessions[id])
    requires |Signers(plan)| >= w.state.table.sessions[id].threshold
    ensures Completable(c, w, id)
  {
    var team := SomeListing(Signers(plan))[..w.state.table.sessions[id].threshold];
    var es := Ceremony(id, plan, team, team);
    ThresholdSignersComplete(c, w, id, plan, team, team);
    NoneRefusedIsLegal(c, w, es);
    assert CompleteAfter(c, w, es, id);
  }

  /** An untouched session all of whose signers are able to attest can be completed exactly if
      it has at least Threshold distinct ones, which is not what CreateSession compares. */
  lemma CompletableIff(c: Rules, w: World, id: Bytes, plan: seq<Ticket>)
    requires Inv(c, w) && ReadyToAttest(c, w, id, plan) && Untouched(w.state.table.sessions[id])
    requires Signers(plan) == Ids(w.state.table.sessions[id].participants)
    ensures Completable(c, w, id) <==>
            |Ids(w.state.table.sessions[id].participants)| >= w.state.policy.config.threshold
  {
    assert SessionOk(w, id);
    if |Signers(plan)| >= w.state.policy.config.threshold {
      EnoughSignersCompletable(c, w, id, plan);
    } else if Completable(c, w, id) {
      var es :| LegalRun(c, w, es) && CompleteAfter(c, w, es, id);
      RepeatedSignersNeverComplete(c, w, es, id);
    }
  }

  /** Such sessions are opened: with threshold 2, naming one active signer twice is enough. */
  lemma RepeatedSignerAccepted(c: Rules, w: World, a: Bytes, req: Request, e: Event)
    requires w.state.policy.config.threshold == 2 && a in w.state.policy.ActiveIds()
    requires e.Create? && e.req == req && e.drawn.Some? && req.requiredSigners == [a, a]
    requires Bound(w.state.table, req.requestID).None?
    requires Reusable(w.state.table, RequestKey(c, req, [a, a])).None?
    ensures Reply(c, w.state, e) == Ok(e.drawn.value)
    ensures |Ids(Next(c, w.state, e).table.sessions[e.drawn.value].participants)| < 2
  {
    assert [a, a][1..] == [a] && [a][1..] == [];
    assert SelectionRefusal(w.state.policy, [a]).None?;
    assert SelectionRefusal(w.state.policy, [a, a]).None?;
    NewParticipantsClear([a, a]);
    assert (set id | id in [a, a]) == {a};
  }

  /** A complete session leaves that status exactly through a submission after its deadline. */
  lemma CompleteUntilLateSubmission(c: Rules, w: World, e: Event, id: Bytes)
    requires Inv(c, w) && Legal(w, e)
    requires id in w.state.table.sessions && w.state.table.sessions[id].status == SessionComplete
    requires id in Next(c, w.state, e).table.sessions
    ensures Next(c, w.state, e).table.sessions[id].status ==
            if e.Submit? && e.id == id && e.now > w.state.table.sessions[id].expiresAt
            then SessionExpired else SessionComplete
  {
    match e
    case Create(_, _, _, _) =>
      assert SessionOk(w, id);
      CreateKeepsRows(c, w, e, id);
    case Submit(_, _, _, _, _) => SubmitToComplete(c, w, e, id);
    case Commitment(x, signer) => RecordToComplete(w, x, signer, Committed, id);
    case Share(x, signer) => RecordToComplete(w, x, signer, Shared, id);
    case Challenge(_, _, _, _) =>
    case Cleanup(_) =>
    case CleanupNonces(_) =>
    case PolicyOp(_) =>
  }

  lemma SubmitToComplete(c: Rules, w: World, e: Event, id: Bytes)
    requires e.Submit? && id in w.state.table.sessions && w.state.table.sessions[id].status == SessionComplete
    ensures Next(c, w.state, e).table.sessions[id].status ==
            if e.id == id && e.now > w.state.table.sessions[id].expiresAt then SessionExpired else SessionComplete
  {
  }

  lemma RecordToComplete(w: World, x: Bytes, signerID: Bytes, f: Flag, id: Bytes)
    requires f != Attested && id in w.state.table.sessions && w.state.table.sessions[id].status == SessionComplete
    ensures RecordIn(w.state.table, x, signerID, f).sessions[id] == w.state.table.sessions[id]
  {
  }
}
