/** How far a round gets under the engine, which proposes only when it creates a round: a round that
    has changed its view waits for a proposal that does not come. */
module EngineViews {
  import opened Wrappers
  import opened Pbft
  import opened PbftRuns
  import opened PbftEngine
  import opened EngineRuns

  /** The step puts a new round under the hash. */
  predicate Restarts(c: Crypto, config: Config, step: Step, hash: string) {
    match step
    case Starts(block, vs, listing, now) => Started(c, config, block, vs, listing, now).1 == Ok(hash)
    case _ => false
  }

  ghost predicate NoRestart(c: Crypto, config: Config, steps: seq<Step>, hash: string) {
    forall i :: 0 <= i < |steps| ==> !Restarts(c, config, steps[i], hash)
  }

  // ----- views

  /** Waiting for a proposal, or given up. */
  predicate Out(r: Round) { r.phase == PrePrepare || r.phase == Failed }

  /** A round is voted on in its first view, and out in every later one. */
  predicate FirstViewOnly(r: Round) {
    (r.viewNumber > 0 ==> Out(r)) && (r.phase == PrePrepare ==> r.viewNumber > 0)
  }

  ghost predicate AllFirstViewOnly(rounds: Rounds) {
    forall h :: h in rounds ==> FirstViewOnly(rounds[h])
  }

  lemma VotesKeepFirstView(c: Crypto, r: Round, id: string, sig: BlockSignature, now: nat)
    requires FirstViewOnly(r)
    ensures FirstViewOnly(AfterPrepare(c, r, id, sig, now).0)
    ensures FirstViewOnly(AfterCommit(c, r, id, sig).0)
  {
    hide SignatureFailure, Quorum;
  }

  lemma ViewChangeKeepsFirstView(r: Round, id: string, newView: nat, now: nat)
    requires FirstViewOnly(r)
    ensures FirstViewOnly(AfterTrigger(r, now).0)
    ensures FirstViewOnly(AfterViewChange(r, id, newView, now).0)
  {
    hide CertificateCarries;
  }

  lemma TakeKeepsFirstView(c: Crypto, config: Config, rounds: Rounds, step: Step)
    requires AllFirstViewOnly(rounds)
    ensures AllFirstViewOnly(Take(c, config, rounds, step))
  {
    hide AfterPrepare, AfterCommit, AfterViewChange, AfterTrigger, FirstViewOnly, PrePrepareFailure;
    match step
    case Starts(block, vs, listing, now) => StartedFirstView(c, config, block, vs, listing, now);
    case Prepares(h, id, sig, now) => if h in rounds { VotesKeepFirstView(c, rounds[h], id, sig, now); }
    case Commits(h, id, sig) => if h in rounds { VotesKeepFirstView(c, rounds[h], id, sig, 0); }
    case Certifies(h, id, newView, now) => if h in rounds { ViewChangeKeepsFirstView(rounds[h], id, newView, now); }
    case TimesOut(now) => forall h | h in rounds { ViewChangeKeepsFirstView(rounds[h], "", 0, now); }
    case Cleans(_) =>
  }

  lemma StartedFirstView(c: Crypto, config: Config, block: Block, vs: ValidatorSet, listing: seq<string>, now: nat)
    ensures var (r, result) := Started(c, config, block, vs, listing, now);
            result.Ok? ==> FirstViewOnly(r)
                           && r == NewRound(block, vs, config, now).(phase := Prepare, phaseEnteredAt := now)
  {
    hide PrePrepareFailure;
  }

  lemma {:induction false} TakeAllKeepsFirstView(c: Crypto, config: Config, rounds: Rounds, steps: seq<Step>)
    requires AllFirstViewOnly(rounds)
    ensures AllFirstViewOnly(TakeAll(c, config, rounds, steps))
    decreases |steps|
  {
    hide Take, AllFirstViewOnly;
    if steps != [] {
      TakeKeepsFirstView(c, config, rounds, steps[0]);
      TakeAllKeepsFirstView(c, config, Take(c, config, rounds, steps[0]), steps[1..]);
    }
  }

  /** In every run of the engine a round in a later view waits for a proposal or has failed, so that a
      finalised round is in its first view. */
  lemma FinalisedInFirstView(c: Crypto, config: Config, steps: seq<Step>, hash: string)
    requires hash in TakeAll(c, config, map[], steps)
    ensures var r := TakeAll(c, config, map[], steps)[hash];
            && (r.viewNumber > 0 ==> r.phase == PrePrepare || r.phase == Failed)
            && (r.phase == Finalised ==> r.viewNumber == 0)
  {
    hide TakeAll;
    TakeAllKeepsFirstView(c, config, map[], steps);
  }

  // ----- out for good

  ghost predicate OutOrGone(rounds: Rounds, hash: string) { hash in rounds ==> Out(rounds[hash]) }

  lemma OutStaysOut(c: Crypto, config: Config, rounds: Rounds, step: Step, hash: string)
    requires OutOrGone(rounds, hash) && !Restarts(c, config, step, hash)
    ensures OutOrGone(Take(c, config, rounds, step), hash)
  {
    hide SignatureFailure, PrePrepareFailure, CertificateCarries;
  }

  /** Once a round is out, which a view change makes it, it is not finalised any more unless a new round
      takes its place. */
  lemma {:induction false} OutForGood(c: Crypto, config: Config, rounds: Rounds, steps: seq<Step>, hash: string)
    requires OutOrGone(rounds, hash) && NoRestart(c, config, steps, hash)
    ensures OutOrGone(TakeAll(c, config, rounds, steps), hash)
    decreases |steps|
  {
    hide Take, Restarts, OutOrGone;
    if steps != [] {
      OutStaysOut(c, config, rounds, steps[0], hash);
      OutForGood(c, config, Take(c, config, rounds, steps[0]), steps[1..], hash);
    }
  }

  lemma ViewChangePutsOut(r: Round, id: string, newView: nat, now: nat)
    ensures Out(AfterTrigger(r, now).0)
    ensures CertificateCarries(r, id, newView) ==> Out(AfterViewChange(r, id, newView, now).0)
  {
    hide CertificateCarries;
  }

  // ----- how often a round can change under the engine

  /** A bound on the changes still to come. */
  function Left(r: Round): int {
    match r.phase
    case PrePrepare => r.config.maxViewChanges - r.viewChangeCount + 1
    case Prepare => r.config.maxViewChanges + 3
    case Commit => r.config.maxViewChanges + 2
    case Finalised => r.config.maxViewChanges + 1
    case Failed => 0
  }

  /** What the invariants say of the view and the phase. */
  predicate Orderly(r: Round) {
    && r.viewNumber == r.viewChangeCount <= r.config.maxViewChanges
    && (r.phase == Failed ==> r.viewChangeCount == r.config.maxViewChanges)
    && FirstViewOnly(r)
  }

  /** A step of the round spends some of what is left exactly when it changes phase or view. */
  ghost predicate SpendsOnChange(r: Round, r': Round) {
    if Changes(r, r') then Left(r') < Left(r) else Left(r') == Left(r)
  }

  lemma VotesSpend(c: Crypto, r: Round, id: string, sig: BlockSignature, now: nat)
    requires Orderly(r)
    ensures SpendsOnChange(r, AfterPrepare(c, r, id, sig, now).0)
    ensures SpendsOnChange(r, AfterCommit(c, r, id, sig).0)
  {
    hide SignatureFailure, Quorum;
  }

  lemma ViewChangeSpends(r: Round, id: string, newView: nat, now: nat)
    requires Orderly(r)
    ensures SpendsOnChange(r, AfterTrigger(r, now).0)
    ensures SpendsOnChange(r, AfterViewChange(r, id, newView, now).0)
  {
    hide CertificateCarries;
  }

  ghost predicate EngineOrderly(c: Crypto, config: Config, rounds: Rounds) {
    EngineOk(c, config, rounds) && AllFirstViewOnly(rounds)
  }

  lemma TakeSpends(c: Crypto, config: Config, rounds: Rounds, step: Step, hash: string)
    requires EngineOrderly(c, config, rounds) && hash in rounds && !Restarts(c, config, step, hash)
    ensures hash in Take(c, config, rounds, step) ==> SpendsOnChange(rounds[hash], Take(c, config, rounds, step)[hash])
  {
    hide AfterPrepare, AfterCommit, AfterViewChange, AfterTrigger, SpendsOnChange, PrePrepareFailure,
         RoundOk, FirstViewOnly;
    var r := rounds[hash];
    RoundIsOrderly(c, r);
    NoChangeSpendsNothing(r);
    match step
    case Starts(_, _, _, _) =>
    case Prepares(_, id, sig, now) => VotesSpend(c, r, id, sig, now);
    case Commits(_, id, sig) => VotesSpend(c, r, id, sig, 0);
    case Certifies(_, id, newView, now) => ViewChangeSpends(r, id, newView, now);
    case TimesOut(now) => ViewChangeSpends(r, "", 0, now);
    case Cleans(_) =>
  }

  lemma RoundIsOrderly(c: Crypto, r: Round)
    requires RoundOk(c, r) && FirstViewOnly(r)
    ensures Orderly(r)
  {
    hide SignaturesOk, Quorum;
  }

  lemma NoChangeSpendsNothing(r: Round)
    ensures SpendsOnChange(r, r)
  {
  }

  lemma AbsentStaysAbsent(c: Crypto, config: Config, rounds: Rounds, step: Step, hash: string)
    requires hash !in rounds && !Restarts(c, config, step, hash)
    ensures hash !in Take(c, config, rounds, step)
  {
    hide AfterPrepare, AfterCommit, AfterViewChange, AfterTrigger, PrePrepareFailure;
  }

  /** The phase and view changes of the round under a hash, over a run. */
  function ChangesAt(c: Crypto, config: Config, rounds: Rounds, steps: seq<Step>, hash: string): nat
    decreases |steps|
  {
    if steps == [] then 0
    else
      var rounds' := Take(c, config, rounds, steps[0]);
      (if hash in rounds && hash in rounds' && Changes(rounds[hash], rounds'[hash]) then 1 else 0)
      + ChangesAt(c, config, rounds', steps[1..], hash)
  }

  lemma {:induction false} ChangesSpend(c: Crypto, config: Config, rounds: Rounds, steps: seq<Step>, hash: string)
    requires EngineOrderly(c, config, rounds) && NoRestart(c, config, steps, hash)
    ensures ChangesAt(c, config, rounds, steps, hash) <= if hash in rounds then Left(rounds[hash]) else 0
    decreases |steps|
  {
    hide Take, Restarts, RoundOk, FirstViewOnly, Left;
    if hash in rounds { LeftNotNegative(c, rounds[hash]); }
    if steps != [] {
      var rounds' := Take(c, config, rounds, steps[0]);
      TakeKeeps(c, config, rounds, steps[0]);
      TakeKeepsFirstView(c, config, rounds, steps[0]);
      ChangesSpend(c, config, rounds', steps[1..], hash);
      if hash in rounds {
        TakeSpends(c, config, rounds, steps[0], hash);
      } else {
        AbsentStaysAbsent(c, config, rounds, steps[0], hash);
      }
    }
  }

  lemma LeftNotNegative(c: Crypto, r: Round)
    requires RoundOk(c, r)
    ensures Left(r) >= 0
  {
    hide SignaturesOk;
  }

  /** A round that the engine has just started, in PREPARE, changes at most maxViewChanges + 3 times more
      before a new one takes its place: with the change into PREPARE, maxViewChanges + 4. */
  lemma EngineRoundChangesBounded(
    c: Crypto, config: Config, before: seq<Step>, start: Step, after: seq<Step>, hash: string)
    requires Restarts(c, config, start, hash) && NoRestart(c, config, after, hash)
    ensures var rounds := Take(c, config, TakeAll(c, config, map[], before), start);
            ChangesAt(c, config, rounds, after, hash) <= config.maxViewChanges + 3
  {
    hide TakeAll, ChangesAt, PrePrepareFailure, RoundOk, NoRestart;
    var earlier := TakeAll(c, config, map[], before);
    TakeAllKeeps(c, config, map[], before);
    TakeAllKeepsFirstView(c, config, map[], before);
    TakeKeeps(c, config, earlier, start);
    TakeKeepsFirstView(c, config, earlier, start);
    ChangesSpend(c, config, Take(c, config, earlier, start), after, hash);
    StartedFirstView(c, config, start.block, start.validators, start.listing, start.now);
  }

  // ----- the bound is attained

  const SOLO_START := Starts(SOLO_BLOCK, SOLO, ["v"], 0)

  /** View-change certificates for one view after the other. */
  function Certificates(view: nat, last: nat): seq<Step>
    requires view <= last
    decreases last - view
  {
    [Certifies("h", "v", view + 1, 0)] + if view == last then [] else Certificates(view + 1, last)
  }

  /** All the way to FINALISED, and then through all the views to FAILED. */
  function LongRun(config: Config): seq<Step> {
    [Prepares("h", "v", SOLO_SIG, 0), Commits("h", "v", SOLO_SIG)] + Certificates(0, config.maxViewChanges)
  }

  ghost predicate SoloRounds(rounds: Rounds, config: Config, view: nat) {
    && rounds.Keys == {"h"}
    && rounds["h"].validators == SOLO && rounds["h"].config == config
    && rounds["h"].viewNumber == rounds["h"].viewChangeCount == view <= config.maxViewChanges
  }

  lemma CertificateStep(rounds: Rounds, config: Config, view: nat)
    requires SoloRounds(rounds, config, view) && rounds["h"].phase != Failed
    ensures var rounds' := Take(Lenient(), config, rounds, Certifies("h", "v", view + 1, 0));
            && "h" in rounds' && Changes(rounds["h"], rounds'["h"])
            && (view < config.maxViewChanges ==> SoloRounds(rounds', config, view + 1) && rounds'["h"].phase != Failed)
  {
    hide CertificateCarries;
    SoloCertificate(rounds["h"], view);
  }

  lemma {:induction false} CertificatesCount(rounds: Rounds, config: Config, view: nat)
    requires SoloRounds(rounds, config, view) && rounds["h"].phase != Failed
    ensures ChangesAt(Lenient(), config, rounds, Certificates(view, config.maxViewChanges), "h")
         == config.maxViewChanges - view + 1
    decreases config.maxViewChanges - view
  {
    hide Take;
    var steps := Certificates(view, config.maxViewChanges);
    CertificateStep(rounds, config, view);
    var rounds' := Take(Lenient(), config, rounds, steps[0]);
    if view < config.maxViewChanges {
      assert steps[1..] == Certificates(view + 1, config.maxViewChanges);
      CertificatesCount(rounds', config, view + 1);
    } else {
      assert steps[1..] == [];
    }
  }

  lemma SoloStart(config: Config)
    ensures Restarts(Lenient(), config, SOLO_START, "h")
    ensures Take(Lenient(), config, map[], SOLO_START)
         == map["h" := NewRound(SOLO_BLOCK, SOLO, config, 0).(phase := Prepare, phaseEnteredAt := 0)]
  {
    hide PrePrepareFailure;
    var r := NewRound(SOLO_BLOCK, SOLO, config, 0);
    SoloPropose(r, 0);
    assert AfterPrePrepare(Lenient(), r, "v", ["v"], 0).0.phase == Prepare;
  }

  /** For every limit a run of the engine makes that many changes. */
  lemma EngineBoundIsAttained(config: Config)
    ensures Restarts(Lenient(), config, SOLO_START, "h") && NoRestart(Lenient(), config, LongRun(config), "h")
    ensures var rounds := Take(Lenient(), config, map[], SOLO_START);
            ChangesAt(Lenient(), config, rounds, LongRun(config), "h") == config.maxViewChanges + 3
  {
    hide Certificates;
    var (c, steps) := (Lenient(), LongRun(config));
    SoloStart(config);
    CertificatesOnly(0, config.maxViewChanges);
    var rounds := Take(c, config, map[], SOLO_START);
    SoloPrepare(rounds["h"], 0);
    var rounds1 := Take(c, config, rounds, steps[0]);
    assert steps[1..][0] == steps[1] && steps[1..][1..] == Certificates(0, config.maxViewChanges);
    SoloCommit(rounds1["h"], 0);
    var rounds2 := Take(c, config, rounds1, steps[1]);
    CertificatesCount(rounds2, config, 0);
    assert ChangesAt(c, config, rounds1, steps[1..], "h") == 1 + ChangesAt(c, config, rounds2, steps[1..][1..], "h");
  }

  lemma {:induction false} CertificatesOnly(view: nat, last: nat)
    requires view <= last
    ensures forall i :: 0 <= i < |Certificates(view, last)| ==> Certificates(view, last)[i].Certifies?
    decreases last - view
  {
    if view < last { CertificatesOnly(view + 1, last); }
  }
}
