/** What votes, certificates and time do to a round: which of them move it, and that enough of them do. */
module PbftVotes {
  import opened Wrappers
  import opened Counting
  import opened Pbft
  import opened PbftRuns
  import opened PbftEngine
  import opened Sorting
  import PbftSafety
  import Proposers
  import Text

  // ----- which votes count

  /** A vote passes the checks exactly when it is the verified signature of an active validator. */
  lemma PassesExactlyWhenVerified(c: Crypto, r: Round, phase: string, id: string, sig: BlockSignature)
    ensures SignatureFailure(c, r, phase, id, sig).None? <==> Verified(c, r.block.header, r.validators, phase, id, sig)
  {
    hide NormalKey, SignedMessage;
  }

  /** More than two thirds of the validators, or two in the opted-in cluster of three. */
  predicate Enough(r: Round, count: nat) {
    if PbftSafety.SmallCluster(r) then count >= 2 else 3 * count > 2 * |Active(r.validators)|
  }

  lemma EnoughIsQuorum(r: Round, count: nat)
    requires Active(r.validators) != {}
    ensures count >= Quorum(r) <==> Enough(r, count)
  {
    hide QuorumThreshold;
    PbftSafety.QuorumArithmetic(|Active(r.validators)|, r.config.allowSmallClusterQuorum);
  }

  /** A prepare that is not verified changes nothing; a verified one is stored, and moves the round on
      exactly when it brings the different signers to enough. */
  lemma PrepareMovesOnExactlyWhen(c: Crypto, r: Round, id: string, sig: BlockSignature, now: nat)
    requires r.phase == Prepare
    ensures var r' := AfterPrepare(c, r, id, sig, now).0;
            if Verified(c, r.block.header, r.validators, "prepare", id, sig) then
              && r'.prepareSigs == r.prepareSigs[id := sig] && r'.validators == r.validators && r'.config == r.config
              && r'.block == r.block && r'.commitSigs == r.commitSigs
              && r'.phase == (if Enough(r, |r.prepareSigs.Keys + {id}|) then Commit else Prepare)
              && AfterPrepare(c, r, id, sig, now).1 == Ok(r'.phase == Commit)
            else r' == r && AfterPrepare(c, r, id, sig, now).1.Err?
  {
    hide SignatureFailure, Verified, Quorum, Enough;
    PassesExactlyWhenVerified(c, r, "prepare", id, sig);
    assert r.prepareSigs[id := sig].Keys == r.prepareSigs.Keys + {id};
    assert |r.prepareSigs[id := sig].Keys| == |r.prepareSigs[id := sig]|;
    if Verified(c, r.block.header, r.validators, "prepare", id, sig) {
      VerifiedIsActive(c, r.block.header, r.validators, "prepare", id, sig);
      EnoughIsQuorum(r, |r.prepareSigs.Keys + {id}|);
    }
  }

  lemma VerifiedIsActive(c: Crypto, header: Header, vs: ValidatorSet, phase: string, id: string, sig: BlockSignature)
    requires Verified(c, header, vs, phase, id, sig)
    ensures id in Active(vs)
  {
  }

  /** The same for commits and finality. */
  lemma CommitFinalisesExactlyWhen(c: Crypto, r: Round, id: string, sig: BlockSignature)
    requires r.phase == Commit
    ensures var r' := AfterCommit(c, r, id, sig).0;
            if Verified(c, r.block.header, r.validators, "commit", id, sig) then
              && r'.commitSigs == r.commitSigs[id := sig] && r'.validators == r.validators && r'.config == r.config
              && r'.block == r.block
              && r'.phase == (if Enough(r, |r.commitSigs.Keys + {id}|) then Finalised else Commit)
              && AfterCommit(c, r, id, sig).1 == Ok(r'.phase == Finalised)
            else r' == r && AfterCommit(c, r, id, sig).1.Err?
  {
    hide SignatureFailure, Verified, Quorum, Enough;
    PassesExactlyWhenVerified(c, r, "commit", id, sig);
    assert r.commitSigs[id := sig].Keys == r.commitSigs.Keys + {id};
    assert |r.commitSigs[id := sig].Keys| == |r.commitSigs[id := sig]|;
    if Verified(c, r.block.header, r.validators, "commit", id, sig) {
      VerifiedIsActive(c, r.block.header, r.validators, "commit", id, sig);
      EnoughIsQuorum(r, |r.commitSigs.Keys + {id}|);
    }
  }

  // ----- enough signers finalise

  type Signer = string -> BlockSignature

  ghost predicate Sign(c: Crypto, r: Round, phase: string, ids: seq<string>, signer: Signer) {
    forall i :: 0 <= i < |ids| ==> Verified(c, r.block.header, r.validators, phase, ids[i], signer(ids[i]))
  }

  function CastPrepares(ids: seq<string>, signer: Signer, now: nat): seq<Event> {
    seq(|ids|, i requires 0 <= i < |ids| => CastPrepare(ids[i], signer(ids[i]), now))
  }

  function CastCommits(ids: seq<string>, signer: Signer): seq<Event> {
    seq(|ids|, i requires 0 <= i < |ids| => CastCommit(ids[i], signer(ids[i])))
  }

  function Elements(ids: seq<string>): set<string> { set id | id in ids }

  lemma {:induction false} RunConcat(c: Crypto, r: Round, es: seq<Event>, es': seq<Event>)
    ensures Run(c, r, es + es') == Run(c, Run(c, r, es), es')
    decreases |es|
  {
    hide Next;
    if es == [] {
      assert es + es' == es';
    } else {
      assert (es + es')[0] == es[0] && (es + es')[1..] == es[1..] + es';
      RunConcat(c, Next(c, r, es[0]), es[1..], es');
    }
  }

  ghost predicate SameRound(r: Round, r': Round) {
    r'.block == r.block && r'.validators == r.validators && r'.config == r.config
  }

  /** Where a round stands after these validators have prepared. */
  ghost predicate PreparedBy(r: Round, r': Round, ids: seq<string>) {
    && SameRound(r, r') && r'.commitSigs == map[]
    && if ids != [] && Enough(r, |ids|) then r'.phase == Commit
       else r'.phase == Prepare && r'.prepareSigs.Keys == Elements(ids)
  }

  lemma PreparedStep(c: Crypto, r: Round, before: Round, ids: seq<string>, sig: BlockSignature, now: nat)
    requires ids != [] && NoRepeats(ids) && PreparedBy(r, before, ids[..|ids| - 1])
    requires Verified(c, r.block.header, r.validators, "prepare", ids[|ids| - 1], sig)
    ensures PreparedBy(r, AfterPrepare(c, before, ids[|ids| - 1], sig, now).0, ids)
  {
    hide Verified, AfterPrepare, Enough;
    var n := |ids| - 1;
    OneMoreSigner(ids);
    SameEnough(r, before, |ids|);
    MoreIsEnough(r, n);
    if before.phase == Prepare {
      PrepareMovesOnExactlyWhen(c, before, ids[n], sig, now);
    } else {
      PrepareIgnored(c, before, ids[n], sig, now);
    }
  }

  /** Each verified prepare of a further validator is one more signer, until there are enough. */
  lemma {:induction false} PreparesAddUp(c: Crypto, r: Round, ids: seq<string>, signer: Signer, now: nat)
    requires r.phase == Prepare && r.prepareSigs == map[] && r.commitSigs == map[]
    requires NoRepeats(ids) && Sign(c, r, "prepare", ids, signer)
    ensures PreparedBy(r, Run(c, r, CastPrepares(ids, signer, now)), ids)
    decreases |ids|
  {
    hide Run, Verified, AfterPrepare;
    if ids == [] {
      RunNone(c, r);
      assert CastPrepares(ids, signer, now) == [] && Elements(ids) == {};
    } else {
      hide PreparedBy;
      var (n, earlier) := (|ids| - 1, ids[..|ids| - 1]);
      PreparesAddUp(c, r, earlier, signer, now);
      var e := CastPrepare(ids[n], signer(ids[n]), now);
      assert CastPrepares(ids, signer, now) == CastPrepares(earlier, signer, now) + [e];
      RunConcat(c, r, CastPrepares(earlier, signer, now), [e]);
      var before := Run(c, r, CastPrepares(earlier, signer, now));
      RunOne(c, before, e);
      PreparedStep(c, r, before, ids, signer(ids[n]), now);
    }
  }

  lemma RunNone(c: Crypto, r: Round)
    ensures Run(c, r, []) == r
  {
  }

  lemma RunOne(c: Crypto, r: Round, e: Event)
    ensures Run(c, r, [e]) == Next(c, r, e)
  {
    assert [e][1..] == [];
  }

  lemma PrepareIgnored(c: Crypto, r: Round, id: string, sig: BlockSignature, now: nat)
    requires r.phase == Commit
    ensures AfterPrepare(c, r, id, sig, now).0 == r
  {
  }

  lemma CommitIgnored(c: Crypto, r: Round, id: string, sig: BlockSignature)
    requires r.phase == Finalised
    ensures AfterCommit(c, r, id, sig).0 == r
  {
  }

  lemma OneMoreSigner(ids: seq<string>)
    requires ids != [] && NoRepeats(ids)
    ensures var earlier := ids[..|ids| - 1];
            && NoRepeats(earlier) && Elements(ids) == Elements(earlier) + {ids[|ids| - 1]}
            && |Elements(ids)| == |ids| && |Elements(earlier)| == |earlier|
  {
    var n := |ids| - 1;
    assert ids == ids[..n] + [ids[n]];
    ElementCount(ids);
    ElementCount(ids[..n]);
  }

  lemma {:induction false} ElementCount(ids: seq<string>)
    requires NoRepeats(ids)
    ensures |Elements(ids)| == |ids|
  {
    if ids != [] {
      var n := |ids| - 1;
      ElementCount(ids[..n]);
      assert ids == ids[..n] + [ids[n]];
      assert Elements(ids) == Elements(ids[..n]) + {ids[n]};
    }
  }

  /** Where a round stands after these validators have committed. */
  ghost predicate CommittedBy(r: Round, r': Round, ids: seq<string>) {
    && SameRound(r, r')
    && if ids != [] && Enough(r, |ids|) then r'.phase == Finalised
       else r'.phase == Commit && r'.commitSigs.Keys == Elements(ids)
  }

  lemma CommittedStep(c: Crypto, r: Round, before: Round, ids: seq<string>, sig: BlockSignature)
    requires ids != [] && NoRepeats(ids) && CommittedBy(r, before, ids[..|ids| - 1])
    requires Verified(c, r.block.header, r.validators, "commit", ids[|ids| - 1], sig)
    ensures CommittedBy(r, AfterCommit(c, before, ids[|ids| - 1], sig).0, ids)
  {
    hide Verified, AfterCommit, Enough;
    var n := |ids| - 1;
    OneMoreSigner(ids);
    SameEnough(r, before, |ids|);
    MoreIsEnough(r, n);
    if before.phase == Commit {
      CommitFinalisesExactlyWhen(c, before, ids[n], sig);
    } else {
      CommitIgnored(c, before, ids[n], sig);
    }
  }

  lemma {:induction false} CommitsAddUp(c: Crypto, r: Round, ids: seq<string>, signer: Signer)
    requires r.phase == Commit && r.commitSigs == map[]
    requires NoRepeats(ids) && Sign(c, r, "commit", ids, signer)
    ensures CommittedBy(r, Run(c, r, CastCommits(ids, signer)), ids)
    decreases |ids|
  {
    hide Run, Verified, AfterCommit;
    if ids == [] {
      RunNone(c, r);
      assert CastCommits(ids, signer) == [] && Elements(ids) == {};
    } else {
      hide CommittedBy;
      var (n, earlier) := (|ids| - 1, ids[..|ids| - 1]);
      CommitsAddUp(c, r, earlier, signer);
      var e := CastCommit(ids[n], signer(ids[n]));
      assert CastCommits(ids, signer) == CastCommits(earlier, signer) + [e];
      RunConcat(c, r, CastCommits(earlier, signer), [e]);
      var before := Run(c, r, CastCommits(earlier, signer));
      RunOne(c, before, e);
      CommittedStep(c, r, before, ids, signer(ids[n]));
    }
  }

  /** All but a minority below a third: as many as may be silent without stopping a block. */
  lemma AllButAThirdIsEnough(r: Round, count: nat)
    requires Active(r.validators) != {} && !PbftSafety.SmallCluster(r)
    ensures count >= |Active(r.validators)| - (|Active(r.validators)| - 1) / 3 <==> Enough(r, count)
  {
  }

  /** A started round is finalised when enough different validators prepare and then commit, and it is not
      when fewer do: under the strict quorum n - (n - 1) / 3 of n. */
  lemma FinalisedExactlyWhenEnoughSign(
    c: Crypto, r: Round, ids: seq<string>, preparer: Signer, committer: Signer, now: nat)
    requires r.phase == Prepare && r.prepareSigs == map[] && r.commitSigs == map[] && ids != [] && NoRepeats(ids)
    requires Sign(c, r, "prepare", ids, preparer) && Sign(c, r, "commit", ids, committer)
    ensures var r' := Run(c, r, CastPrepares(ids, preparer, now) + CastCommits(ids, committer));
            r'.phase == Finalised <==> Enough(r, |ids|)
    ensures !PbftSafety.SmallCluster(r) ==>
      (Enough(r, |ids|) <==> |ids| >= |Active(r.validators)| - (|Active(r.validators)| - 1) / 3)
  {
    hide Run, Verified, Enough;
    var prepared := Run(c, r, CastPrepares(ids, preparer, now));
    PreparesAddUp(c, r, ids, preparer, now);
    RunConcat(c, r, CastPrepares(ids, preparer, now), CastCommits(ids, committer));
    VerifiedIsActive(c, r.block.header, r.validators, "prepare", ids[0], preparer(ids[0]));
    if !PbftSafety.SmallCluster(r) { AllButAThirdIsEnough(r, |ids|); }
    if Enough(r, |ids|) {
      SameEnough(r, prepared, |ids|);
      CommitsAddUp(c, prepared, ids, committer);
    } else {
      CommitsTooEarly(c, prepared, ids, committer);
    }
  }

  lemma MoreIsEnough(r: Round, count: nat)
    ensures Enough(r, count) ==> Enough(r, count + 1)
  {
  }

  lemma SameEnough(r: Round, r': Round, count: nat)
    requires SameRound(r, r')
    ensures Enough(r, count) <==> Enough(r', count)
  {
  }

  lemma {:induction false} CommitsTooEarly(c: Crypto, r: Round, ids: seq<string>, signer: Signer)
    requires r.phase == Prepare
    ensures Run(c, r, CastCommits(ids, signer)) == r
    decreases |ids|
  {
    if ids != [] {
      var es := CastCommits(ids, signer);
      assert Next(c, r, es[0]) == r;
      assert es[1..] == CastCommits(ids[1..], signer);
      CommitsTooEarly(c, r, ids[1..], signer);
    }
  }

  // ----- certificates

  function Certificates(ids: seq<string>, newView: nat, now: nat): seq<Event> {
    seq(|ids|, i requires 0 <= i < |ids| => Certificate(ids[i], newView, now))
  }

  /** More than a third of the validators, for a view ahead. */
  predicate Carries(r: Round, senders: set<string>, newView: nat) {
    3 * |senders| > |Active(r.validators)| && r.viewNumber < newView
  }

  lemma CarriesExactlyWhen(r: Round, id: string, newView: nat)
    ensures CertificateCarries(r, id, newView) <==> Carries(r, VotesFor(r, newView) + {id}, newView)
  {
    var (n, k) := (|Active(r.validators)|, |VotesFor(r, newView) + {id}|);
    assert k >= n / 3 + 1 <==> 3 * k > n;
  }

  lemma CertificateStep(r: Round, id: string, newView: nat, now: nat)
    ensures var r' := AfterViewChange(r, id, newView, now).0;
            var senders := VotesFor(r, newView) + {id};
            && r'.validators == r.validators && r'.config == r.config && VotesFor(r', newView) == senders
            && (Carries(r, senders, newView) && r.viewChangeCount < r.config.maxViewChanges ==>
                  r'.viewNumber == r.viewNumber + 1 && r'.viewChangeCount == r.viewChangeCount + 1)
            && (!Carries(r, senders, newView) ==>
                  r'.viewNumber == r.viewNumber && r'.viewChangeCount == r.viewChangeCount && r'.phase == r.phase)
  {
    hide CertificateCarries, Carries;
    CarriesExactlyWhen(r, id, newView);
  }

  /** Where a round stands after certificates of these senders for its next view. */
  ghost predicate Certified(r: Round, r': Round, ids: seq<string>) {
    && r'.validators == r.validators && r'.config == r.config && VotesFor(r', r.viewNumber + 1) == Elements(ids)
    && r'.viewNumber == r.viewNumber + (if 0 < |Active(r.validators)| < 3 * |ids| then 1 else 0)
    && (r'.viewNumber == r.viewNumber ==> r'.viewChangeCount == r.viewChangeCount && r'.phase == r.phase)
  }

  lemma CertifiedStep(r: Round, before: Round, ids: seq<string>, now: nat)
    requires ids != [] && NoRepeats(ids) && Active(r.validators) != {}
    requires r.viewChangeCount < r.config.maxViewChanges && Certified(r, before, ids[..|ids| - 1])
    ensures Certified(r, AfterViewChange(before, ids[|ids| - 1], r.viewNumber + 1, now).0, ids)
  {
    hide AfterViewChange, VotesFor;
    OneMoreSigner(ids);
    CertificateStep(before, ids[|ids| - 1], r.viewNumber + 1, now);
  }

  lemma {:induction false} CertificatesAddUp(c: Crypto, r: Round, ids: seq<string>, now: nat)
    requires NoRepeats(ids) && VotesFor(r, r.viewNumber + 1) == {} && Active(r.validators) != {}
    requires r.viewChangeCount < r.config.maxViewChanges
    ensures Certified(r, Run(c, r, Certificates(ids, r.viewNumber + 1, now)), ids)
    decreases |ids|
  {
    hide Run, AfterViewChange, VotesFor;
    if ids == [] {
      RunNone(c, r);
      assert Certificates(ids, r.viewNumber + 1, now) == [] && Elements(ids) == {};
    } else {
      hide Certified;
      var (n, earlier, view) := (|ids| - 1, ids[..|ids| - 1], r.viewNumber + 1);
      CertificatesAddUp(c, r, earlier, now);
      var e := Certificate(ids[n], view, now);
      assert Certificates(ids, view, now) == Certificates(earlier, view, now) + [e];
      RunConcat(c, r, Certificates(earlier, view, now), [e]);
      var before := Run(c, r, Certificates(earlier, view, now));
      RunOne(c, before, e);
      CertifiedStep(r, before, ids, now);
    }
  }

  /** Certificates of different validators for the next view bring it about exactly when they are more
      than a third, and then once. */
  lemma ViewChangesExactlyWhen(c: Crypto, r: Round, ids: seq<string>, now: nat)
    requires NoRepeats(ids) && VotesFor(r, r.viewNumber + 1) == {} && Active(r.validators) != {}
    requires r.viewChangeCount < r.config.maxViewChanges
    ensures Run(c, r, Certificates(ids, r.viewNumber + 1, now)).viewNumber
         == r.viewNumber + if 3 * |ids| > |Active(r.validators)| then 1 else 0
  {
    hide Run, VotesFor;
    CertificatesAddUp(c, r, ids, now);
  }

  // ----- time

  /** A sweep touches exactly the rounds that are not done and have been in their phase for longer than the
      timeout; cleaning drops exactly the done ones that are older than the time to live. */
  lemma SweepsExactlyWhen(rounds: Rounds, config: Config, now: nat, h: string)
    requires h in rounds && rounds[h].config == config
    ensures h in AfterTimeouts(rounds, now)
    ensures AfterTimeouts(rounds, now)[h] != rounds[h] <==>
            rounds[h].phase !in {Finalised, Failed} && now > rounds[h].phaseEnteredAt + config.phaseTimeout
    ensures h !in AfterCleanup(rounds, config.staleTtl, now) <==>
            rounds[h].phase in {Finalised, Failed} && now > rounds[h].createdAt + config.staleTtl
  {
  }

  /** Entering a phase or a view that can time out restarts the clock, and nothing else does. */
  lemma ClockRestartsOnChange(c: Crypto, r: Round, e: Event, now: nat)
    requires match e
             case Propose(_, _, t) => t == now
             case CastPrepare(_, _, t) => t == now
             case CastCommit(_, _) => true
             case Certificate(_, _, t) => t == now
             case Timeout(t) => t == now
    ensures ClockRuns(r, Next(c, r, e), now)
  {
    hide AfterPrePrepare, AfterPrepare, AfterCommit, AfterTrigger, AfterViewChange, ClockRuns;
    ClockStands(r, now);
    match e
    case Propose(proposer, listing, _) => ClockOfProposal(c, r, proposer, listing, now);
    case CastPrepare(id, sig, _) => ClockOfVotes(c, r, id, sig, now);
    case CastCommit(id, sig) => ClockOfVotes(c, r, id, sig, now);
    case Certificate(id, newView, _) => ClockOfViewChange(r, id, newView, now);
    case Timeout(_) => ClockOfViewChange(r, "", 0, now);
  }

  lemma ClockStands(r: Round, now: nat)
    ensures ClockRuns(r, r, now)
  {
  }

  lemma ClockOfProposal(c: Crypto, r: Round, proposer: string, listing: seq<string>, now: nat)
    ensures ClockRuns(r, AfterPrePrepare(c, r, proposer, listing, now).0, now)
  {
    hide PrePrepareFailure;
  }

  lemma ClockOfVotes(c: Crypto, r: Round, id: string, sig: BlockSignature, now: nat)
    ensures ClockRuns(r, AfterPrepare(c, r, id, sig, now).0, now)
    ensures ClockRuns(r, AfterCommit(c, r, id, sig).0, now)
  {
    hide SignatureFailure, Quorum;
  }

  lemma ClockOfViewChange(r: Round, id: string, newView: nat, now: nat)
    ensures ClockRuns(r, AfterTrigger(r, now).0, now)
    ensures ClockRuns(r, AfterViewChange(r, id, newView, now).0, now)
  {
    hide CertificateCarries;
  }

  predicate ClockRuns(r: Round, r': Round, now: nat) {
    r'.phaseEnteredAt == if Changes(r, r') && !IsTerminal(r') then now else r.phaseEnteredAt
  }

  /** A round that the engine starts is in PREPARE in its first view from this moment on, with nothing signed. */
  lemma StartedRound(c: Crypto, config: Config, block: Block, vs: ValidatorSet, listing: seq<string>, now: nat)
    requires Started(c, config, block, vs, listing, now).1.Ok?
    ensures var r := Started(c, config, block, vs, listing, now).0;
            && r.block == block && r.validators == vs && r.config == config
            && r.phase == Prepare && r.prepareSigs == map[] && r.commitSigs == map[] && r.viewChangeVotes == map[]
            && r.viewNumber == r.viewChangeCount == 0 && r.createdAt == r.phaseEnteredAt == now
    ensures Started(c, config, block, vs, listing, now).1 == Ok(c.headerHash(block.header))
  {
    hide PrePrepareFailure;
  }

  // ----- what is answered

  /** A view change answers with the new view, and fails only where the limit is reached, with the round. */
  lemma TriggerAnswers(r: Round, now: nat)
    ensures var (r', answer) := AfterTrigger(r, now);
            if r.viewChangeCount >= r.config.maxViewChanges
            then answer == Err(ViewChangesExhausted) && r'.phase == Failed
            else r'.viewNumber == r.viewNumber + 1 && answer == Ok(r'.viewNumber)
  {
  }

  /** A certificate answers true exactly when it carries and the view changes with it. */
  lemma CertificateAnswers(r: Round, id: string, newView: nat, now: nat)
    ensures var (r', answer) := AfterViewChange(r, id, newView, now);
            && (answer == Ok(true) <==> r'.viewNumber != r.viewNumber)
            && (answer == Ok(false) <==> !Carries(r, VotesFor(r, newView) + {id}, newView))
            && (answer.Err? ==> answer.error == ViewChangesExhausted && r'.phase == Failed)
  {
    hide CertificateCarries, Carries;
    CarriesExactlyWhen(r, id, newView);
  }

  /** Votes outside their phase are refused as such; otherwise the first of these that applies is the answer
      to a vote that is not verified. */
  lemma VoteRefusals(c: Crypto, r: Round, id: string, sig: BlockSignature, now: nat)
    ensures r.phase != Prepare ==> AfterPrepare(c, r, id, sig, now) == (r, Err(WrongPhase))
    ensures r.phase != Commit ==> AfterCommit(c, r, id, sig) == (r, Err(WrongPhase))
    ensures forall phase ::
      var f := SignatureFailure(c, r, phase, id, sig);
      && (f == Some(SignerMismatch) <==> sig.validatorId != id)
      && (f == Some(UnknownValidator) <==> sig.validatorId == id && id !in r.validators)
      && (f == Some(InactiveValidator) <==> sig.validatorId == id && id in r.validators && id !in Active(r.validators))
      && (f == Some(PubkeyMismatch) ==> NormalKey(sig.pubkey) != NormalKey(r.validators[id].pubkey))
      && (f == Some(BadSignature) ==> NormalKey(sig.pubkey) == NormalKey(r.validators[id].pubkey))
  {
    hide NormalKey, SignedMessage;
  }

  /** So are proposals: out of phase, from outside the active set, with a proof that fails, or not chosen. */
  lemma ProposalRefusals(c: Crypto, r: Round, proposer: string, listing: seq<string>, now: nat)
    ensures var answer := AfterPrePrepare(c, r, proposer, listing, now).1;
            && (answer == Err(WrongPhase) <==> r.phase != PrePrepare)
            && (answer == Err(NotMember) <==> r.phase == PrePrepare && proposer !in Active(r.validators))
            && (answer == Err(VrfInvalid) <==>
                  && r.phase == PrePrepare && proposer in Active(r.validators)
                  && !PbftSafety.VrfAcceptable(c, r, proposer))
            && (answer.Err? ==> AfterPrePrepare(c, r, proposer, listing, now).0 == r)
  {
    hide Proposers.Selected;
  }

  /** The engine answers as the round under the hash does, and that there is none where there is none. */
  lemma EngineAnswers(
    c: Crypto, rounds: Rounds, hash: string, id: string, sig: BlockSignature, newView: nat, now: nat)
    ensures hash !in rounds ==>
      && AfterEnginePrepare(c, rounds, hash, id, sig, now) == (rounds, Err(NoRound))
      && AfterEngineCommit(c, rounds, hash, id, sig) == (rounds, Err(NoRound))
      && AfterReceiveViewChange(rounds, hash, id, newView, now) == (rounds, Err(NoRound))
    ensures hash in rounds ==>
      && AfterEnginePrepare(c, rounds, hash, id, sig, now).1 == AfterPrepare(c, rounds[hash], id, sig, now).1
      && AfterEngineCommit(c, rounds, hash, id, sig).1 == AfterCommit(c, rounds[hash], id, sig).1
      && AfterReceiveViewChange(rounds, hash, id, newView, now).1 == AfterViewChange(rounds[hash], id, newView, now).1
  {
    hide AfterPrepare, AfterCommit, AfterViewChange;
  }

  // ----- what is signed, and by which key

  /** A signed text determines its phase and the hash. */
  lemma SignedTextDetermines(phase: string, hash: string, phase': string, hash': string)
    requires ':' !in phase && ':' !in phase' && SignedMessage(phase, hash) == SignedMessage(phase', hash')
    ensures phase == phase' && hash == hash' && "creg-pbft-v1:" <= SignedMessage(phase, hash)
  {
    var (s, p) := (SignedMessage(phase, hash), "creg-pbft-v1:");
    assert s[|p|..] == phase + ":" + hash && s[|p|..] == phase' + ":" + hash';
    var t := s[|p|..];
    assert t[|phase|] == ':' && t[|phase'|] == ':';
    assert forall i :: 0 <= i < |phase| ==> t[i] == phase[i];
    assert forall i :: 0 <= i < |phase'| ==> t[i] == phase'[i];
    assert |phase| == |phase'|;
    assert phase == t[..|phase|] && phase' == t[..|phase|];
    assert hash == t[|phase| + 1..] && hash' == t[|phase| + 1..];
  }

  function Prefixes(m: nat): string { if m == 0 then "" else "0x" + Prefixes(m - 1) }

  /** The key is m times "0x" and then a body that does not start so. */
  ghost predicate KeyBody(key: string, m: nat, body: string) { key == Prefixes(m) + body && !("0x" <= body) }

  lemma NoPrefixes(body: string)
    ensures Prefixes(0) + body == body
  {
  }

  lemma PrefixesStep(k: nat, body: string)
    ensures Prefixes(k + 1) + body == "0x" + (Prefixes(k) + body)
  {
    assert Prefixes(k + 1) == "0x" + Prefixes(k);
  }

  lemma StripStep(key: string)
    ensures "0x" <= key ==> StripPrefix(key) == StripPrefix(key[2..]) && key == "0x" + key[2..]
    ensures !("0x" <= key) ==> StripPrefix(key) == key
  {
    if "0x" <= key {
      assert key[..2] == "0x" && key == key[..2] + key[2..];
    } else {
      assert |key| >= 2 ==> key[..2] != "0x";
    }
  }

  /** Every key can be taken apart so. */
  lemma {:induction false} Stripped(key: string) returns (m: nat)
    ensures KeyBody(key, m, StripPrefix(key))
  {
    hide Prefixes, StripPrefix;
    StripStep(key);
    if "0x" <= key {
      var k := Stripped(key[2..]);
      m := k + 1;
      PrefixesStep(k, StripPrefix(key[2..]));
    } else {
      m := 0;
      NoPrefixes(key);
    }
  }

  lemma {:induction false} BodyUnique(key: string, m: nat, body: string)
    requires KeyBody(key, m, body)
    ensures body == StripPrefix(key)
  {
    hide Prefixes, StripPrefix;
    StripStep(key);
    if m > 0 {
      PrefixesStep(m - 1, body);
      assert key[2..] == Prefixes(m - 1) + body;
      BodyUnique(key[2..], m - 1, body);
    } else {
      NoPrefixes(body);
    }
  }

  /** Two keys are the same exactly when, without their leading "0x", they are the same up to case. */
  lemma KeysAgreeExactlyWhen(a: string, b: string, m: nat, x: string, n: nat, y: string)
    requires KeyBody(a, m, x) && KeyBody(b, n, y)
    ensures NormalKey(a) == NormalKey(b) <==> Text.SameText(x, y)
  {
    hide StripPrefix, Text.Lower, Text.SameText, KeyBody;
    BodyUnique(a, m, x);
    BodyUnique(b, n, y);
    Text.LowerExactlyWhenSame(x, y);
  }
}
