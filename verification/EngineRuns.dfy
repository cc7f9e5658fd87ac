/** Runs of the engine: what a finalised block carries, and what can take its finality away. */
module EngineRuns {
  import opened Wrappers
  import opened Pbft
  import opened PbftRuns
  import opened PbftEngine

  datatype Step =
    | Starts(block: Block, validators: ValidatorSet, listing: seq<string>, now: nat)
    | Prepares(hash: string, id: string, sig: BlockSignature, now: nat)
    | Commits(hash: string, id: string, sig: BlockSignature)
    | Certifies(hash: string, id: string, newView: nat, now: nat)
    | TimesOut(now: nat)
    | Cleans(now: nat)

  function Take(c: Crypto, config: Config, rounds: Rounds, step: Step): Rounds {
    match step
    case Starts(block, vs, listing, now) => AfterStart(c, config, rounds, block, vs, listing, now).0
    case Prepares(hash, id, sig, now) => AfterEnginePrepare(c, rounds, hash, id, sig, now).0
    case Commits(hash, id, sig) => AfterEngineCommit(c, rounds, hash, id, sig).0
    case Certifies(hash, id, newView, now) => AfterReceiveViewChange(rounds, hash, id, newView, now).0
    case TimesOut(now) => AfterTimeouts(rounds, now)
    case Cleans(now) => AfterCleanup(rounds, config.staleTtl, now)
  }

  function TakeAll(c: Crypto, config: Config, rounds: Rounds, steps: seq<Step>): Rounds
    decreases |steps|
  {
    if steps == [] then rounds else TakeAll(c, config, Take(c, config, rounds, steps[0]), steps[1..])
  }

  /** Every round is in order, lies under the hash of its own block, and runs under the engine's
      configuration. */
  ghost predicate EngineOk(c: Crypto, config: Config, rounds: Rounds) {
    forall h :: h in rounds ==>
      RoundOk(c, rounds[h]) && c.headerHash(rounds[h].block.header) == h && rounds[h].config == config
  }

  lemma StartKeeps(
    c: Crypto, config: Config, rounds: Rounds, block: Block, vs: ValidatorSet, listing: seq<string>, now: nat)
    requires EngineOk(c, config, rounds)
    ensures EngineOk(c, config, AfterStart(c, config, rounds, block, vs, listing, now).0)
  {
    hide RoundOk, PrePrepareFailure;
    var created := NewRound(block, vs, config, now);
    NewRoundOk(c, block, vs, config, now);
    NextKeeps(c, created, Propose(block.header.proposerId, listing, now));
  }

  lemma TakeKeeps(c: Crypto, config: Config, rounds: Rounds, step: Step)
    requires EngineOk(c, config, rounds)
    ensures EngineOk(c, config, Take(c, config, rounds, step))
  {
    hide RoundOk, AfterPrepare, AfterCommit, AfterViewChange, AfterTrigger, AfterStart;
    match step
    case Starts(block, vs, listing, now) => StartKeeps(c, config, rounds, block, vs, listing, now);
    case Prepares(hash, id, sig, now) =>
      if hash in rounds { PrepareKeeps(c, rounds[hash], id, sig, now); }
    case Commits(hash, id, sig) =>
      if hash in rounds { CommitKeeps(c, rounds[hash], id, sig); }
    case Certifies(hash, id, newView, now) =>
      if hash in rounds { ViewChangeKeeps(c, rounds[hash], id, newView, now); }
    case TimesOut(now) =>
      forall h | h in rounds { TriggerKeeps(c, rounds[h], now); }
    case Cleans(_) =>
  }

  lemma {:induction false} TakeAllKeeps(c: Crypto, config: Config, rounds: Rounds, steps: seq<Step>)
    requires EngineOk(c, config, rounds)
    ensures EngineOk(c, config, TakeAll(c, config, rounds, steps))
    decreases |steps|
  {
    hide Take, EngineOk;
    if steps != [] {
      TakeKeeps(c, config, rounds, steps[0]);
      TakeAllKeeps(c, config, Take(c, config, rounds, steps[0]), steps[1..]);
    }
  }

  /** In every run of the engine, a block handed out as finalised for `hash` hashes to it and carries
      at least a quorum of commit signatures of different active validators, each verified for the
      commit phase and this very block; and a quorum of verified prepares came before, in the view. */
  lemma FinalisedBlockIsCertified(
    c: Crypto, config: Config, steps: seq<Step>, hash: string, block: Block, signers: seq<string>)
    requires var rounds := TakeAll(c, config, map[], steps);
             hash in rounds && rounds[hash].phase == Finalised && FinalisedBlock(rounds[hash], block, signers)
    ensures var r := TakeAll(c, config, map[], steps)[hash];
      && c.headerHash(block.header) == hash
      && |block.pbftSignatures| >= Quorum(r)
      && (forall i, j :: 0 <= i < j < |block.pbftSignatures| ==>
            block.pbftSignatures[i].validatorId != block.pbftSignatures[j].validatorId)
      && (forall i :: 0 <= i < |block.pbftSignatures| ==>
            var sig := block.pbftSignatures[i];
            Verified(c, block.header, r.validators, "commit", sig.validatorId, sig))
      && |r.prepareSigs| >= Quorum(r) && AllVerified(c, block.header, r.validators, "prepare", r.prepareSigs)
  {
    hide TakeAll, Verified, Quorum;
    TakeAllKeeps(c, config, map[], steps);
    var r := TakeAll(c, config, map[], steps)[hash];
    assert |r.commitSigs.Keys| == |r.commitSigs|;
    forall i | 0 <= i < |signers|
      ensures block.pbftSignatures[i].validatorId == signers[i]
      ensures Verified(c, block.header, r.validators, "commit", signers[i], block.pbftSignatures[i])
    {
      assert Verified(c, r.block.header, r.validators, "commit", signers[i], r.commitSigs[signers[i]]);
      VerifiedSigner(c, r.block.header, r.validators, "commit", signers[i], r.commitSigs[signers[i]]);
    }
  }

  lemma VerifiedSigner(c: Crypto, header: Header, vs: ValidatorSet, phase: string, id: string, sig: BlockSignature)
    requires Verified(c, header, vs, phase, id, sig)
    ensures sig.validatorId == id
  {
  }

  // ----- what takes finality away

  ghost predicate FinalisedAs(rounds: Rounds, hash: string, r: Round) {
    && hash in rounds
    && rounds[hash].phase == Finalised
    && rounds[hash].block == r.block
    && rounds[hash].validators == r.validators
    && rounds[hash].prepareSigs == r.prepareSigs
    && rounds[hash].commitSigs == r.commitSigs
  }

  /** The steps that undo a finalised round: proposing its block again, a view-change certificate that
      carries, and expiry. */
  predicate Disturbs(c: Crypto, config: Config, rounds: Rounds, step: Step, hash: string)
    requires hash in rounds
  {
    match step
    case Starts(block, vs, listing, now) => Started(c, config, block, vs, listing, now).1 == Ok(hash)
    case Certifies(h, id, newView, _) => h == hash && CertificateCarries(rounds[hash], id, newView)
    case Cleans(now) => Stale(rounds[hash], config.staleTtl, now)
    case _ => false
  }

  lemma CertificateAtFinalised(r: Round, id: string, newView: nat, now: nat)
    requires r.phase == Finalised
    ensures var r' := AfterViewChange(r, id, newView, now).0;
            if CertificateCarries(r, id, newView) then r'.phase != Finalised
            else r' == r.(viewChangeVotes := r'.viewChangeVotes)
  {
    hide CertificateCarries;
  }

  lemma VotesAtFinalised(c: Crypto, r: Round, id: string, sig: BlockSignature, now: nat)
    requires r.phase == Finalised
    ensures AfterPrepare(c, r, id, sig, now).0 == r && AfterCommit(c, r, id, sig).0 == r
  {
    hide SignatureFailure;
  }

  /** A finalised round keeps its certificate through a step exactly when the step is none of these. */
  lemma FinalityKeptExactlyWhen(c: Crypto, config: Config, rounds: Rounds, step: Step, hash: string)
    requires hash in rounds && rounds[hash].phase == Finalised
    ensures FinalisedAs(Take(c, config, rounds, step), hash, rounds[hash]) <==> !Disturbs(c, config, rounds, step, hash)
  {
    hide AfterTrigger, AfterViewChange, CertificateCarries, PrePrepareFailure, AfterPrepare, AfterCommit;
    match step
    case Starts(_, _, _, _) =>
    case Prepares(_, id, sig, now) => VotesAtFinalised(c, rounds[hash], id, sig, now);
    case Commits(_, id, sig) => VotesAtFinalised(c, rounds[hash], id, sig, 0);
    case Certifies(h, id, newView, now) =>
      if h == hash { CertificateAtFinalised(rounds[hash], id, newView, now); }
    case TimesOut(_) =>
    case Cleans(_) =>
  }

  /** No step of the run disturbs the round of `hash`. */
  ghost predicate Undisturbed(c: Crypto, config: Config, rounds: Rounds, steps: seq<Step>, hash: string)
    decreases |steps|
  {
    steps == [] ||
    (&& hash in rounds
     && !Disturbs(c, config, rounds, steps[0], hash)
     && Undisturbed(c, config, Take(c, config, rounds, steps[0]), steps[1..], hash))
  }

  lemma {:induction false} FinalityPersists(c: Crypto, config: Config, rounds: Rounds, steps: seq<Step>, hash: string)
    requires hash in rounds && rounds[hash].phase == Finalised
    requires Undisturbed(c, config, rounds, steps, hash)
    ensures FinalisedAs(TakeAll(c, config, rounds, steps), hash, rounds[hash])
    decreases |steps|
  {
    hide Take, Disturbs;
    if steps != [] {
      FinalityKeptExactlyWhen(c, config, rounds, steps[0], hash);
      FinalityPersists(c, config, Take(c, config, rounds, steps[0]), steps[1..], hash);
    }
  }

  /** A sweep for timeouts brings every round it touches strictly closer to its end. */
  lemma TimeoutsMakeProgress(c: Crypto, config: Config, rounds: Rounds, now: nat, hash: string)
    requires EngineOk(c, config, rounds) && hash in TimedOutHashes(rounds, now)
    ensures hash in AfterTimeouts(rounds, now)
    ensures Measure(AfterTimeouts(rounds, now)[hash]) < Measure(rounds[hash])
  {
    hide AfterTrigger;
    TriggerLowers(rounds[hash], now);
  }
}
