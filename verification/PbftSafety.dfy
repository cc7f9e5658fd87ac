/** Agreement between finalised rounds, and who may propose. */
module PbftSafety {
  import opened Wrappers
  import opened Pbft
  import opened PbftRuns
  import opened Counting
  import opened EngineRuns
  import opened Sorting
  import Proposers
  import Text

  // ----- quorums intersect

  /** A quorum is the least number above two thirds, two in the opted-in cluster of three, and none of none.
      Two quorums share more than a third of the validators; two of three still share one. */
  lemma QuorumArithmetic(n: nat, allowSmall: bool)
    requires n > 0
    ensures var q := QuorumThreshold(n, allowSmall);
            && 2 * q - n >= 1
            && (allowSmall && n == 3 ==> q == 2)
            && (!(allowSmall && n == 3) ==> 2 * n < 3 * q <= 2 * n + 3 && q == n - (n - 1) / 3)
            && (!(allowSmall && n == 3) ==> 2 * q - n >= n / 3 + 1)
    ensures QuorumThreshold(0, allowSmall) == 0
  {
  }

  lemma SignersAreActive(c: Crypto, r: Round)
    requires RoundOk(c, r)
    ensures r.commitSigs.Keys <= Active(r.validators)
    ensures r.phase == Finalised ==> |Active(r.validators)| > 0
  {
    if r.phase == Finalised {
      assert r.commitSigs.Keys != {};
      var id :| id in r.commitSigs.Keys;
      assert id in Active(r.validators);
    }
  }

  /** The validators whose verified commit signatures stand on both blocks. */
  ghost predicate CommittedBoth(c: Crypto, r: Round, r': Round, id: string) {
    && id in r.commitSigs && Verified(c, r.block.header, r.validators, "commit", id, r.commitSigs[id])
    && id in r'.commitSigs && Verified(c, r'.block.header, r'.validators, "commit", id, r'.commitSigs[id])
  }

  /** Two finalised rounds in order, over the same active validators and under one configuration. */
  ghost predicate BothFinalised(c: Crypto, r: Round, r': Round) {
    && RoundOk(c, r) && RoundOk(c, r') && r.phase == r'.phase == Finalised
    && Active(r.validators) == Active(r'.validators) && r.config == r'.config
  }

  predicate SmallCluster(r: Round) { r.config.allowSmallClusterQuorum && |Active(r.validators)| == 3 }

  lemma RoundsOverlap(c: Crypto, r: Round, r': Round) returns (both: set<string>)
    requires BothFinalised(c, r, r')
    ensures both <= Active(r.validators)
    ensures forall id :: id in both ==> CommittedBoth(c, r, r', id)
    ensures |both| >= 1
    ensures !SmallCluster(r) ==> |both| >= |Active(r.validators)| / 3 + 1
  {
    hide QuorumThreshold;
    SignersAreActive(c, r);
    SignersAreActive(c, r');
    both := r.commitSigs.Keys * r'.commitSigs.Keys;
    Overlap(r.commitSigs.Keys, r'.commitSigs.Keys, Active(r.validators));
    QuorumArithmetic(|Active(r.validators)|, r.config.allowSmallClusterQuorum);
    assert |r.commitSigs.Keys| == |r.commitSigs| && |r'.commitSigs.Keys| == |r'.commitSigs|;
  }

  /** A correct validator signs a commit for one of these two blocks at most. */
  ghost predicate SignsOne(
    c: Crypto, header: Header, vs: ValidatorSet, header': Header, vs': ValidatorSet, id: string)
  {
    forall sig, sig' ::
      Verified(c, header, vs, "commit", id, sig) && Verified(c, header', vs', "commit", id, sig')
      ==> c.headerHash(header) == c.headerHash(header')
  }

  /** At most a third are faulty, none in a cluster of three with the smaller quorum, and the others sign
      a commit for one of the two blocks at most. */
  ghost predicate FewFaulty(c: Crypto, r: Round, r': Round, faulty: set<string>) {
    && |faulty| <= (if SmallCluster(r) then 0 else |Active(r.validators)| / 3)
    && forall id :: id in Active(r.validators) - faulty ==>
         SignsOne(c, r.block.header, r.validators, r'.block.header, r'.validators, id)
  }

  lemma RoundsAgree(c: Crypto, r: Round, r': Round, faulty: set<string>)
    requires BothFinalised(c, r, r') && FewFaulty(c, r, r', faulty)
    ensures c.headerHash(r.block.header) == c.headerHash(r'.block.header)
  {
    hide RoundOk;
    var both := RoundsOverlap(c, r, r');
    if both <= faulty {
      SubsetSize(both, faulty);
      assert false;
    }
    var id :| id in both && id !in faulty;
    assert SignsOne(c, r.block.header, r.validators, r'.block.header, r'.validators, id);
  }

  // ----- rounds on their own

  lemma BothRunsFinalised(
    c: Crypto, config: Config,
    block: Block, vs: ValidatorSet, es: seq<Event>, now: nat,
    block': Block, vs': ValidatorSet, es': seq<Event>, now': nat)
    requires Active(vs) == Active(vs')
    requires Run(c, NewRound(block, vs, config, now), es).phase == Finalised
    requires Run(c, NewRound(block', vs', config, now'), es').phase == Finalised
    ensures var r := Run(c, NewRound(block, vs, config, now), es);
            var r' := Run(c, NewRound(block', vs', config, now'), es');
            && BothFinalised(c, r, r')
            && r.block == block && r'.block == block'
            && r.validators == vs && r'.validators == vs' && r.config == config
  {
    hide Run, RoundOk;
    NewRoundOk(c, block, vs, config, now);
    NewRoundOk(c, block', vs', config, now');
    RunKeeps(c, NewRound(block, vs, config, now), es);
    RunKeeps(c, NewRound(block', vs', config, now'), es');
  }

  /** For any two finalised rounds, reached by any runs over the same active validators, more than a
      third of the validators hold verified commit signatures on both blocks. */
  lemma FinalisedRoundsOverlap(
    c: Crypto, config: Config,
    block: Block, vs: ValidatorSet, es: seq<Event>, now: nat,
    block': Block, vs': ValidatorSet, es': seq<Event>, now': nat)
    returns (both: set<string>)
    requires Active(vs) == Active(vs')
    requires Run(c, NewRound(block, vs, config, now), es).phase == Finalised
    requires Run(c, NewRound(block', vs', config, now'), es').phase == Finalised
    ensures both <= Active(vs)
    ensures forall id :: id in both ==>
      CommittedBoth(
        c, Run(c, NewRound(block, vs, config, now), es), Run(c, NewRound(block', vs', config, now'), es'), id)
    ensures |both| >= 1
    ensures !(config.allowSmallClusterQuorum && |Active(vs)| == 3) ==> |both| >= |Active(vs)| / 3 + 1
  {
    hide Run, RoundOk;
    BothRunsFinalised(c, config, block, vs, es, now, block', vs', es', now');
    var r := Run(c, NewRound(block, vs, config, now), es);
    var r' := Run(c, NewRound(block', vs', config, now'), es');
    both := RoundsOverlap(c, r, r');
  }

  /** Safety: if at most a third of the validators are faulty, and the others sign a commit for only
      one of two blocks, then both blocks cannot be finalised unless they are the same block. */
  lemma Agreement(
    c: Crypto, config: Config, faulty: set<string>,
    block: Block, vs: ValidatorSet, es: seq<Event>, now: nat,
    block': Block, vs': ValidatorSet, es': seq<Event>, now': nat)
    requires Active(vs) == Active(vs')
    requires Run(c, NewRound(block, vs, config, now), es).phase == Finalised
    requires Run(c, NewRound(block', vs', config, now'), es').phase == Finalised
    requires |faulty| <= if config.allowSmallClusterQuorum && |Active(vs)| == 3 then 0 else |Active(vs)| / 3
    requires forall id :: id in Active(vs) - faulty ==> SignsOne(c, block.header, vs, block'.header, vs', id)
    ensures c.headerHash(block.header) == c.headerHash(block'.header)
  {
    hide Run, RoundOk;
    BothRunsFinalised(c, config, block, vs, es, now, block', vs', es', now');
    var r := Run(c, NewRound(block, vs, config, now), es);
    var r' := Run(c, NewRound(block', vs', config, now'), es');
    RoundsAgree(c, r, r', faulty);
  }

  // ----- engines

  /** Two engines, whatever their runs, that have each finalised a round over the same active validators,
      with few faulty: the rounds lie under one hash. */
  lemma EnginesAgree(
    c: Crypto, config: Config, faulty: set<string>,
    steps: seq<Step>, hash: string, steps': seq<Step>, hash': string)
    requires hash in TakeAll(c, config, map[], steps) && hash' in TakeAll(c, config, map[], steps')
    requires var (r, r') := (TakeAll(c, config, map[], steps)[hash], TakeAll(c, config, map[], steps')[hash']);
             && r.phase == r'.phase == Finalised && Active(r.validators) == Active(r'.validators)
             && FewFaulty(c, r, r', faulty)
    ensures hash == hash'
  {
    hide TakeAll, RoundOk, FewFaulty;
    TakeAllKeeps(c, config, map[], steps);
    TakeAllKeeps(c, config, map[], steps');
    RoundsAgree(c, TakeAll(c, config, map[], steps)[hash], TakeAll(c, config, map[], steps')[hash'], faulty);
  }

  // ----- who may propose

  /** The active validators, each once, in some order. */
  ghost predicate Lists(listing: seq<string>, vs: ValidatorSet) {
    NoRepeats(listing) && forall id :: id in listing <==> id in Active(vs)
  }

  lemma SameListing(vs: ValidatorSet, listing: seq<string>, listing': seq<string>)
    requires Lists(listing, vs) && Lists(listing', vs)
    ensures Proposers.SameCandidates(Candidates(vs, listing), Candidates(vs, listing'))
  {
    var (cs, cs') := (Candidates(vs, listing), Candidates(vs, listing'));
    CandidateMembers(vs, listing, listing');
    CandidateMembers(vs, listing', listing);
    SameElements(cs, cs');
  }

  lemma CandidateMembers(vs: ValidatorSet, listing: seq<string>, listing': seq<string>)
    requires Lists(listing, vs) && Lists(listing', vs)
    ensures NoRepeats(Candidates(vs, listing))
    ensures forall x :: x in Candidates(vs, listing) ==> x in Candidates(vs, listing')
  {
    forall x | x in Candidates(vs, listing) ensures x in Candidates(vs, listing') {
      var i :| 0 <= i < |listing| && Candidates(vs, listing)[i] == x;
      assert listing[i] in listing';
      var j :| 0 <= j < |listing'| && listing'[j] == listing[i];
      assert Candidates(vs, listing')[j] == x;
    }
    forall i, j | 0 <= i < j < |listing| ensures Candidates(vs, listing)[i] != Candidates(vs, listing)[j] {
    }
  }

  ghost predicate VrfAcceptable(c: Crypto, r: Round, proposer: string) {
    var h := r.block.header;
    h.vrfProof.Some? && h.vrfOutput.Some? && proposer in r.validators ==>
      c.vrfVerifies(h.prevHash, r.validators[proposer].pubkey, h.vrfOutput.value, h.vrfProof.value)
  }

  /** With different scores a proposal is accepted exactly when the round waits for one, the proof in the
      header, if there is one, verifies, and it comes from the validator ranked first, whatever order the
      validator map is walked in. */
  lemma AcceptsExactlyTheFirstRanked(c: Crypto, r: Round, proposer: string,
                                     listing: seq<string>, listing': seq<string>, now: nat)
    requires Lists(listing, r.validators) && Lists(listing', r.validators) && listing != []
    requires Proposers.DistinctScores(Candidates(r.validators, listing'), r.block.header.prevHash, c.score)
    ensures var ranked := Proposers.RankProposers(Candidates(r.validators, listing'), r.block.header.prevHash, c.score);
            && ranked != []
            && (AfterPrePrepare(c, r, proposer, listing, now).1.Ok? <==>
                  r.phase == PrePrepare && VrfAcceptable(c, r, proposer) && proposer == ranked[0])
  {
    hide Proposers.RankProposers, Proposers.Selected;
    var (cs, cs') := (Candidates(r.validators, listing), Candidates(r.validators, listing'));
    var seed := r.block.header.prevHash;
    assert listing[0] in listing';
    SameListing(r.validators, listing', listing);
    Proposers.HeadOfRankingIsSelected(cs', cs, seed, c.score);
    SelectedIsListed(r.validators, listing, seed, c.score);
  }

  /** The score of a validator for the next block. */
  function ScoreOf(c: Crypto, r: Round, id: string): string
    requires id in r.validators
  {
    c.score(r.validators[id].pubkey, r.block.header.prevHash)
  }

  /** The first of the ranking is the active validator whose score, of its own key and the previous hash, no
      other's is below. */
  lemma FirstRankedHasLowestScore(c: Crypto, r: Round, listing: seq<string>, id: string)
    requires Lists(listing, r.validators) && listing != []
    requires Proposers.DistinctScores(Candidates(r.validators, listing), r.block.header.prevHash, c.score)
    ensures var ranked := Proposers.RankProposers(Candidates(r.validators, listing), r.block.header.prevHash, c.score);
            && ranked != []
            && (id == ranked[0] <==>
                  id in Active(r.validators) && forall other :: other in Active(r.validators) ==>
                    Text.Leq(ScoreOf(c, r, id), ScoreOf(c, r, other)))
  {
    hide Proposers.RankProposers, Proposers.Selected, Proposers.Lowest, Text.Leq;
    var (cs, seed) := (Candidates(r.validators, listing), r.block.header.prevHash);
    var ss := Proposers.ScoreAll(cs, seed, c.score);
    Proposers.HeadOfRankingIsSelected(cs, cs, seed, c.score);
    var best := Proposers.Lowest(ss);
    Proposers.LowestIsLowest(ss);
    assert Proposers.Selected(cs, seed, c.score) == Some(best.id) by { SelectedIsLowest(cs, seed, c.score); }
    ScoredListing(c, r, listing);
    var k :| 0 <= k < |ss| && ss[k] == best;
    forall other | other in Active(r.validators) ensures Text.Leq(ScoreOf(c, r, best.id), ScoreOf(c, r, other)) {
      var j :| 0 <= j < |listing| && listing[j] == other;
      assert ss[j] in ss;
    }
    if id in Active(r.validators)
       && forall other :: other in Active(r.validators) ==> Text.Leq(ScoreOf(c, r, id), ScoreOf(c, r, other))
    {
      var j :| 0 <= j < |listing| && listing[j] == id;
      Text.LeqAntisymmetric(ss[j].score, best.score);
      assert j == k;
    }
  }

  lemma SelectedIsLowest(cs: seq<Proposers.Candidate>, seed: string, score: Proposers.Score)
    requires cs != []
    ensures Proposers.Selected(cs, seed, score) == Some(Proposers.Lowest(Proposers.ScoreAll(cs, seed, score)).id)
  {
  }

  lemma ScoredListing(c: Crypto, r: Round, listing: seq<string>)
    requires Lists(listing, r.validators)
    ensures var ss := Proposers.ScoreAll(Candidates(r.validators, listing), r.block.header.prevHash, c.score);
            |ss| == |listing| && forall i :: 0 <= i < |ss| ==>
              listing[i] in Active(r.validators)
              && ss[i].id == listing[i] && ss[i].score == ScoreOf(c, r, listing[i])
  {
    assert forall i :: 0 <= i < |listing| ==> listing[i] in listing;
  }

  lemma SelectedIsListed(vs: ValidatorSet, listing: seq<string>, seed: string, score: Proposers.Score)
    requires listing != []
    ensures var s := Proposers.Selected(Candidates(vs, listing), seed, score);
            s.Some? && s.value in listing
  {
    var ss := Proposers.ScoreAll(Candidates(vs, listing), seed, score);
    Proposers.LowestIsLowest(ss);
    var i :| 0 <= i < |ss| && ss[i] == Proposers.Lowest(ss);
    assert ss[i].id == listing[i];
  }
}
