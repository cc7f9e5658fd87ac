/** Runs of one consensus round: its invariant, quorum intersection, and how often it can change. */
module PbftRuns {
  import opened Wrappers
  import opened Pbft
  import Proposers

  datatype Event =
    | Propose(proposer: string, listing: seq<string>, now: nat)
    | CastPrepare(id: string, sig: BlockSignature, now: nat)
    | CastCommit(id: string, sig: BlockSignature)
    | Certificate(id: string, newView: nat, now: nat)
    | Timeout(now: nat)

  function Next(c: Crypto, r: Round, e: Event): Round {
    match e
    case Propose(proposer, listing, now) => AfterPrePrepare(c, r, proposer, listing, now).0
    case CastPrepare(id, sig, now) => AfterPrepare(c, r, id, sig, now).0
    case CastCommit(id, sig) => AfterCommit(c, r, id, sig).0
    case Certificate(id, newView, now) => AfterViewChange(r, id, newView, now).0
    case Timeout(now) => if TimedOut(r, now) then AfterTrigger(r, now).0 else r
  }

  function Run(c: Crypto, r: Round, es: seq<Event>): Round
    decreases |es|
  {
    if es == [] then r else Run(c, Next(c, r, es[0]), es[1..])
  }

  // ----- the invariant

  /** `id` is an active validator and `sig` its verified signature for this phase on this block. */
  ghost predicate Verified(
    c: Crypto, header: Header, vs: ValidatorSet, phase: string, id: string, sig: BlockSignature)
  {
    && sig.validatorId == id
    && id in Active(vs)
    && NormalKey(sig.pubkey) == NormalKey(vs[id].pubkey)
    && c.verifies(SignedMessage(phase, c.headerHash(header)), NormalKey(sig.pubkey), sig.signature)
  }

  ghost predicate AllVerified(
    c: Crypto, header: Header, vs: ValidatorSet, phase: string, sigs: map<string, BlockSignature>)
  {
    forall id :: id in sigs ==> Verified(c, header, vs, phase, id, sigs[id])
  }

  ghost predicate SignaturesOk(c: Crypto, r: Round) {
    && AllVerified(c, r.block.header, r.validators, "prepare", r.prepareSigs)
    && AllVerified(c, r.block.header, r.validators, "commit", r.commitSigs)
  }

  /** The phase says which quorums have been reached since the last view change. */
  ghost predicate PhaseOk(r: Round) {
    match r.phase
    case PrePrepare => r.prepareSigs == map[] && r.commitSigs == map[]
    case Prepare => r.commitSigs == map[]
    case Commit => |r.prepareSigs| >= Quorum(r)
    case Finalised => |r.prepareSigs| >= Quorum(r) && |r.commitSigs| >= Quorum(r) && r.commitSigs != map[]
    case Failed => r.viewChangeCount == r.config.maxViewChanges
  }

  ghost predicate RoundOk(c: Crypto, r: Round) {
    r.viewNumber == r.viewChangeCount <= r.config.maxViewChanges && SignaturesOk(c, r) && PhaseOk(r)
  }

  ghost predicate SameSubject(r: Round, r': Round) {
    r'.block == r.block && r'.validators == r.validators && r'.config == r.config && r'.createdAt == r.createdAt
  }

  lemma NewRoundOk(c: Crypto, block: Block, vs: ValidatorSet, config: Config, now: nat)
    ensures RoundOk(c, NewRound(block, vs, config, now))
  {
  }

  lemma NoFailureIsVerified(c: Crypto, r: Round, phase: string, id: string, sig: BlockSignature)
    requires SignatureFailure(c, r, phase, id, sig).None?
    ensures Verified(c, r.block.header, r.validators, phase, id, sig)
  {
  }

  lemma PrepareKeeps(c: Crypto, r: Round, id: string, sig: BlockSignature, now: nat)
    requires RoundOk(c, r)
    ensures var r' := AfterPrepare(c, r, id, sig, now).0; RoundOk(c, r') && SameSubject(r, r')
  {
    hide SignatureFailure, Verified;
    if SignatureFailure(c, r, "prepare", id, sig).None? {
      NoFailureIsVerified(c, r, "prepare", id, sig);
    }
  }

  lemma CommitKeeps(c: Crypto, r: Round, id: string, sig: BlockSignature)
    requires RoundOk(c, r)
    ensures var r' := AfterCommit(c, r, id, sig).0; RoundOk(c, r') && SameSubject(r, r')
  {
    hide SignatureFailure, Verified;
    if SignatureFailure(c, r, "commit", id, sig).None? {
      NoFailureIsVerified(c, r, "commit", id, sig);
      assert id in r.commitSigs[id := sig];
    }
  }

  lemma TriggerKeeps(c: Crypto, r: Round, now: nat)
    requires RoundOk(c, r)
    ensures var r' := AfterTrigger(r, now).0; RoundOk(c, r') && SameSubject(r, r')
  {
    hide Verified;
  }

  lemma ViewChangeKeeps(c: Crypto, r: Round, id: string, newView: nat, now: nat)
    requires RoundOk(c, r)
    ensures var r' := AfterViewChange(r, id, newView, now).0; RoundOk(c, r') && SameSubject(r, r')
  {
    hide Verified, AfterTrigger, CertificateCarries;
    var r' := r.(viewChangeVotes := r.viewChangeVotes[newView := VotesFor(r, newView) + {id}]);
    TriggerKeeps(c, r', now);
  }

  lemma NextKeeps(c: Crypto, r: Round, e: Event)
    requires RoundOk(c, r)
    ensures RoundOk(c, Next(c, r, e)) && SameSubject(r, Next(c, r, e))
  {
    hide AfterPrepare, AfterCommit, AfterViewChange, AfterTrigger, PrePrepareFailure, Verified;
    match e
    case Propose(_, _, _) =>
    case Certificate(id, newView, now) => ViewChangeKeeps(c, r, id, newView, now);
    case Timeout(now) => TriggerKeeps(c, r, now);
    case CastPrepare(id, sig, now) => PrepareKeeps(c, r, id, sig, now);
    case CastCommit(id, sig) => CommitKeeps(c, r, id, sig);
  }

  lemma {:induction false} RunKeeps(c: Crypto, r: Round, es: seq<Event>)
    requires RoundOk(c, r)
    ensures RoundOk(c, Run(c, r, es)) && SameSubject(r, Run(c, r, es))
    decreases |es|
  {
    hide Next, RoundOk;
    if es != [] {
      NextKeeps(c, r, es[0]);
      RunKeeps(c, Next(c, r, es[0]), es[1..]);
    }
  }

  // ----- how often a round can change

  function Weight(phase: Phase): nat {
    match phase
    case PrePrepare => 4
    case Prepare => 3
    case Commit => 2
    case Finalised => 1
    case Failed => 0
  }

  /** A bound on the phase and view changes still to come. */
  function Measure(r: Round): int {
    4 * (r.config.maxViewChanges - r.viewChangeCount) + Weight(r.phase)
  }

  predicate Changes(r: Round, r': Round) {
    r.phase != r'.phase || r.viewNumber != r'.viewNumber
  }

  function CountChanges(c: Crypto, r: Round, es: seq<Event>): nat
    decreases |es|
  {
    if es == [] then 0
    else
      var r' := Next(c, r, es[0]);
      (if Changes(r, r') then 1 else 0) + CountChanges(c, r', es[1..])
  }

  lemma TriggerLowers(r: Round, now: nat)
    requires r.viewNumber == r.viewChangeCount <= r.config.maxViewChanges && PhaseOk(r)
    ensures Changes(r, AfterTrigger(r, now).0) ==> Measure(AfterTrigger(r, now).0) < Measure(r)
    ensures !Changes(r, AfterTrigger(r, now).0) ==> Measure(AfterTrigger(r, now).0) == Measure(r)
    ensures !IsTerminal(r) ==> Measure(AfterTrigger(r, now).0) < Measure(r)
  {
  }

  lemma ViewChangeLowers(r: Round, id: string, newView: nat, now: nat)
    requires r.viewNumber == r.viewChangeCount <= r.config.maxViewChanges && PhaseOk(r)
    ensures var r' := AfterViewChange(r, id, newView, now).0;
            if Changes(r, r') then Measure(r') < Measure(r) else Measure(r') == Measure(r)
  {
    hide CertificateCarries, AfterTrigger;
    TriggerLowers(r.(viewChangeVotes := r.viewChangeVotes[newView := VotesFor(r, newView) + {id}]), now);
  }

  lemma NextLowers(c: Crypto, r: Round, e: Event)
    requires RoundOk(c, r)
    ensures var r' := Next(c, r, e);
            if Changes(r, r') then Measure(r') < Measure(r) else Measure(r') == Measure(r)
  {
    hide SignatureFailure, PrePrepareFailure, AfterViewChange, AfterTrigger, Quorum, SignaturesOk;
    match e
    case Propose(_, _, _) =>
    case Certificate(id, newView, now) => ViewChangeLowers(r, id, newView, now);
    case Timeout(now) => TriggerLowers(r, now);
    case CastPrepare(_, _, _) =>
    case CastCommit(_, _) =>
  }

  lemma {:induction false} ChangesBounded(c: Crypto, r: Round, es: seq<Event>)
    requires RoundOk(c, r)
    ensures CountChanges(c, r, es) + Measure(Run(c, r, es)) <= Measure(r)
    ensures Measure(Run(c, r, es)) >= 0
    decreases |es|
  {
    hide Next;
    if es != [] {
      NextKeeps(c, r, es[0]);
      NextLowers(c, r, es[0]);
      ChangesBounded(c, Next(c, r, es[0]), es[1..]);
    }
  }

  /** Under any interleaving of proposals, votes, certificates and timeouts a round changes its phase
      or view at most 4 * maxViewChanges + 4 times. */
  lemma RoundChangesBounded(c: Crypto, block: Block, vs: ValidatorSet, config: Config, now: nat, es: seq<Event>)
    ensures CountChanges(c, NewRound(block, vs, config, now), es) <= 4 * config.maxViewChanges + 4
  {
    hide Run, CountChanges;
    NewRoundOk(c, block, vs, config, now);
    ChangesBounded(c, NewRound(block, vs, config, now), es);
  }

  // ----- the bound is attained

  /** A network of one validator whose signatures always verify. */
  function Lenient(): Crypto {
    Crypto((h: Header) => "h", (m: string, k: string, s: string) => true,
           (s: string, k: string, o: string, p: string) => true, (k: string, s: string) => "")
  }

  const SOLO: ValidatorSet := map["v" := Validator("v", "k", true)]
  const SOLO_SIG := BlockSignature("v", "k", "s")
  const SOLO_BLOCK := Block(Header(1, "", "", "v", "", "", None, None), [], [])

  /** From PRE-PREPARE to FINALISED, and on to the next view. */
  function Lap(view: nat): seq<Event> {
    [Propose("v", ["v"], 0), CastPrepare("v", SOLO_SIG, 0), CastCommit("v", SOLO_SIG), Certificate("v", view + 1, 0)]
  }

  function Laps(view: nat, last: nat): seq<Event>
    requires view <= last
    decreases last - view
  {
    Lap(view) + if view == last then [] else Laps(view + 1, last)
  }

  ghost predicate SoloAt(r: Round, view: nat) {
    && r.block == SOLO_BLOCK && r.validators == SOLO
    && r.phase == PrePrepare && r.viewNumber == r.viewChangeCount == view <= r.config.maxViewChanges
    && r.prepareSigs == map[] && r.commitSigs == map[]
  }

  lemma SoloQuorum(r: Round)
    requires r.validators == SOLO
    ensures |Active(r.validators)| == 1 && Quorum(r) == 1
  {
    assert Active(SOLO) == {"v"};
  }

  lemma SoloPropose(r: Round, view: nat)
    requires SoloAt(r, view)
    ensures Next(Lenient(), r, Lap(view)[0]) == r.(phase := Prepare, phaseEnteredAt := 0)
  {
    var cs := Candidates(r.validators, ["v"]);
    assert |cs| == 1 && cs[0].id == "v";
    assert Proposers.Selected(cs, "", Lenient().score) == Some("v");
  }

  lemma SoloPrepare(r: Round, view: nat)
    requires r.validators == SOLO && r.phase == Prepare && r.prepareSigs == map[]
    ensures Next(Lenient(), r, Lap(view)[1])
            == r.(prepareSigs := map["v" := SOLO_SIG], phase := Commit, phaseEnteredAt := 0)
  {
    SoloQuorum(r);
    assert SignatureFailure(Lenient(), r, "prepare", "v", SOLO_SIG).None?;
    assert |map["v" := SOLO_SIG]| == 1;
    assert r.prepareSigs["v" := SOLO_SIG] == map["v" := SOLO_SIG];
  }

  lemma SoloCommit(r: Round, view: nat)
    requires r.validators == SOLO && r.phase == Commit && r.commitSigs == map[]
    ensures Next(Lenient(), r, Lap(view)[2]) == r.(commitSigs := map["v" := SOLO_SIG], phase := Finalised)
  {
    SoloQuorum(r);
    assert SignatureFailure(Lenient(), r, "commit", "v", SOLO_SIG).None?;
    assert |map["v" := SOLO_SIG]| == 1;
    assert r.commitSigs["v" := SOLO_SIG] == map["v" := SOLO_SIG];
  }

  lemma SoloCertificate(r: Round, view: nat)
    requires r.validators == SOLO && r.viewNumber == view
    ensures CertificateCarries(r, "v", view + 1)
  {
    SoloQuorum(r);
    assert "v" in VotesFor(r, view + 1) + {"v"};
    assert VotesFor(r, view + 1) + {"v"} != {};
  }

  /** Four changes in each view, the last of them into the next view or into FAILED. */
  lemma SoloLap(r: Round, view: nat, rest: seq<Event>)
    requires SoloAt(r, view)
    ensures var r' := Run(Lenient(), r, Lap(view));
            && CountChanges(Lenient(), r, Lap(view) + rest) == 4 + CountChanges(Lenient(), r', rest)
            && r'.config == r.config
            && (view < r.config.maxViewChanges ==> SoloAt(r', view + 1))
  {
    hide Next;
    var c := Lenient();
    var es := Lap(view) + rest;
    SoloPropose(r, view);
    var r1 := Next(c, r, Lap(view)[0]);
    SoloPrepare(r1, view);
    var r2 := Next(c, r1, Lap(view)[1]);
    SoloCommit(r2, view);
    var r3 := Next(c, r2, Lap(view)[2]);
    SoloCertificate(r3, view);
    SoloLast(r3, view);
    var r4 := Next(c, r3, Lap(view)[3]);
    assert es[1..][0] == Lap(view)[1] && es[1..][1..][0] == Lap(view)[2] && es[1..][1..][1..][0] == Lap(view)[3];
    assert es[1..][1..][1..][1..] == rest;
    assert CountChanges(c, r3, es[1..][1..][1..]) == 1 + CountChanges(c, r4, rest);
    assert CountChanges(c, r2, es[1..][1..]) == 1 + CountChanges(c, r3, es[1..][1..][1..]);
    assert CountChanges(c, r1, es[1..]) == 1 + CountChanges(c, r2, es[1..][1..]);
    var ls := Lap(view);
    assert ls[1..][0] == ls[1] && ls[1..][1..][0] == ls[2] && ls[1..][1..][1..][0] == ls[3];
    assert ls[1..][1..][1..][1..] == [];
    assert Run(c, r3, ls[1..][1..][1..]) == r4;
    assert Run(c, r2, ls[1..][1..]) == r4;
    assert Run(c, r1, ls[1..]) == r4;
  }

  lemma SoloLast(r: Round, view: nat)
    requires CertificateCarries(r, "v", view + 1) && r.phase == Finalised
    requires r.block == SOLO_BLOCK && r.validators == SOLO
    requires r.viewNumber == r.viewChangeCount == view <= r.config.maxViewChanges
    ensures var r' := Next(Lenient(), r, Lap(view)[3]);
            && Changes(r, r') && r'.config == r.config
            && (view < r.config.maxViewChanges ==> SoloAt(r', view + 1))
  {
    hide CertificateCarries;
  }

  lemma {:induction false} SoloLaps(r: Round, view: nat)
    requires SoloAt(r, view)
    ensures var last := r.config.maxViewChanges;
            CountChanges(Lenient(), r, Laps(view, last)) == 4 * (last - view) + 4
    decreases r.config.maxViewChanges - view
  {
    hide CountChanges, Run;
    var last := r.config.maxViewChanges;
    if view == last {
      SoloLap(r, view, []);
      assert Lap(view) + [] == Laps(view, last);
      CountNone(Run(Lenient(), r, Lap(view)));
    } else {
      SoloLap(r, view, Laps(view + 1, last));
      SoloLaps(Run(Lenient(), r, Lap(view)), view + 1);
    }
  }

  lemma CountNone(r: Round)
    ensures CountChanges(Lenient(), r, []) == 0
  {
  }

  /** For every limit there is a round that changes 4 * maxViewChanges + 4 times. */
  lemma BoundIsAttained(config: Config)
    ensures var r := NewRound(SOLO_BLOCK, SOLO, config, 0);
            exists es :: CountChanges(Lenient(), r, es) == 4 * config.maxViewChanges + 4
  {
    SoloLaps(NewRound(SOLO_BLOCK, SOLO, config, 0), 0);
  }
}
