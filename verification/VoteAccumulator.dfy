/** The per-package vote state that collects commit votes and decides early. */
module VoteAccumulator {
  import opened Wrappers
  import opened Ballots
  import opened Counting
  import Text

  datatype IncomingVote = IncomingVote(
    validatorId: string,
    validatorPubkey: string,
    contentHash: string,
    approved: bool,
    rejectReason: Option<string>,
    signature: string,
    receivedAt: nat,
    mlModelVersion: Option<string>,
    bundles: AnalysisBundles,
    evidenceDigest: string)

  type Votes = map<string, IncomingVote>

  datatype VotePhase = Collecting | PrepareQuorumReached | Finalised | Failed(reason: string) | TimedOut

  datatype Verification = Valid | Invalid(reason: string) | Malformed(reason: string)

  function ModelVersion(v: IncomingVote): string {
    if v.mlModelVersion.Some? then v.mlModelVersion.value else ""
  }

  predicate Graded(v: IncomingVote) {
    IsConsensusGrade(ModelVersion(v), v.bundles, v.evidenceDigest)
  }

  function GradedVoters(votes: Votes): set<string> { set id | id in votes && Graded(votes[id]) }

  function Approvers(votes: Votes): set<string> { set id | id in votes && Graded(votes[id]) && votes[id].approved }

  function Rejecters(votes: Votes): set<string> { set id | id in votes && Graded(votes[id]) && !votes[id].approved }

  /** The vote carries a mark that keeps it from counting. */
  predicate Defective(v: IncomingVote) {
    Ballots.Defective(if v.mlModelVersion.Some? then v.mlModelVersion.value else "", v.bundles, v.evidenceDigest)
  }

  /** A vote with a defect counts nowhere: it only takes away an earlier vote of its validator. One without
      adds its validator to the prepared and to its own side, and to no other. */
  lemma VoteCountsExactlyWhenSound(votes: Votes, v: IncomingVote)
    ensures var (votes', without, id) := (votes[v.validatorId := v], votes - {v.validatorId}, v.validatorId);
            if Defective(v) then
              && GradedVoters(votes') == GradedVoters(without)
              && Approvers(votes') == Approvers(without) && Rejecters(votes') == Rejecters(without)
            else
              && GradedVoters(votes') == GradedVoters(without) + {id}
              && Approvers(votes') == Approvers(without) + (if v.approved then {id} else {})
              && Rejecters(votes') == Rejecters(without) + (if v.approved then {} else {id})
  {
    hide IsConsensusGrade, Ballots.Defective;
    GradeExactlyWhenNotDefective(ModelVersion(v), v.bundles, v.evidenceDigest);
  }

  // ----- the decision

  datatype Decision = Verified | Rejected | Undecided | Overflow

  /** `Overflow` stands for the subtraction of more rejections than there are assigned validators. */
  function Decide(votes: Votes, count: nat): Decision {
    if |Approvers(votes)| >= Quorum(count) then Verified
    else if |Rejecters(votes)| > count then Overflow
    else if count - |Rejecters(votes)| < Quorum(count) then Rejected
    else Undecided
  }

  /** A vote with a defect decides what would be decided without any vote of its validator. */
  lemma DefectiveVoteDecidesNothing(votes: Votes, v: IncomingVote, count: nat)
    requires Defective(v)
    ensures Decide(votes[v.validatorId := v], count) == Decide(votes - {v.validatorId}, count)
  {
    hide Graded, Defective;
    VoteCountsExactlyWhenSound(votes, v);
  }

  /** A vote without one, of a validator that has not voted, adds one to its side. */
  lemma SoundVoteCountsOnce(votes: Votes, v: IncomingVote)
    requires !Defective(v) && v.validatorId !in votes
    ensures var votes' := votes[v.validatorId := v];
            && |GradedVoters(votes')| == |GradedVoters(votes)| + 1
            && |Approvers(votes')| == |Approvers(votes)| + (if v.approved then 1 else 0)
            && |Rejecters(votes')| == |Rejecters(votes)| + (if v.approved then 0 else 1)
  {
    hide Graded, Defective;
    VoteCountsExactlyWhenSound(votes, v);
    assert votes - {v.validatorId} == votes;
  }

  /** What the approving votes are turned into: all of them, consensus-grade or not. */
  function ApprovingVotes(votes: Votes): set<IncomingVote> {
    set id | id in votes && votes[id].approved :: votes[id]
  }

  /** A verified package carries the votes of its approvers, and approving votes only. */
  lemma VerifiedCarriesApprovals(votes: Votes)
    ensures forall v :: v in ApprovingVotes(votes) ==> v.approved && exists id :: id in votes && votes[id] == v
    ensures forall id :: id in Approvers(votes) ==> votes[id] in ApprovingVotes(votes)
  {
    hide Graded;
  }

  /** The reason of the first rejecting vote that gives one, in the order the map is walked. */
  function PrimaryReason(votes: Votes, walk: seq<string>): string {
    if walk == [] then "Consensus rejected"
    else if walk[0] in votes && !votes[walk[0]].approved && votes[walk[0]].rejectReason.Some?
    then votes[walk[0]].rejectReason.value
    else PrimaryReason(votes, walk[1..])
  }

  predicate GivesReason(votes: Votes, id: string) {
    id in votes && !votes[id].approved && votes[id].rejectReason.Some?
  }

  /** The reason is that of the first voter of the walk that rejects with one. */
  lemma {:induction false} PrimaryReasonIsTheFirst(votes: Votes, walk: seq<string>, k: nat)
    requires k <= |walk| && (forall i :: 0 <= i < k ==> !GivesReason(votes, walk[i]))
    requires k < |walk| ==> GivesReason(votes, walk[k])
    ensures PrimaryReason(votes, walk)
         == if k < |walk| then votes[walk[k]].rejectReason.value else "Consensus rejected"
    decreases k
  {
    if k > 0 { PrimaryReasonIsTheFirst(votes, walk[1..], k - 1); }
  }

  datatype Outcome =
    | VerifiedBy(sigs: set<IncomingVote>)
    | RejectedFor(reason: string)
    | NotYet
    | Panics
    | BadSignature

  class PackageVoteState {
    const canonical: string
    const assignedCount: nat
    const verify: (string, IncomingVote) -> Verification
    var phase: VotePhase
    var prepareVotes: Votes
    var commitVotes: Votes

    constructor (canonical: string, assignedCount: nat, verify: (string, IncomingVote) -> Verification)
      ensures this.canonical == canonical && this.assignedCount == assignedCount && this.verify == verify
      ensures phase == Collecting && prepareVotes == map[] && commitVotes == map[]
    {
      this.canonical, this.assignedCount, this.verify := canonical, assignedCount, verify;
      phase, prepareVotes, commitVotes := Collecting, map[], map[];
    }

    method RecordPrepare(vote: IncomingVote, skipVerification: bool) returns (reached: Option<bool>)
      modifies this`phase, this`prepareVotes
      ensures reached.None? <==> !skipVerification && verify(canonical, vote) != Valid
      ensures reached.None? ==> phase == old(phase) && prepareVotes == old(prepareVotes)
      ensures reached.Some? ==> prepareVotes == old(prepareVotes)[vote.validatorId := vote]
      ensures reached.Some? ==>
        (reached.value <==> |GradedVoters(prepareVotes)| >= Quorum(assignedCount) && old(phase) == Collecting)
      ensures reached.Some? ==> phase == if reached.value then PrepareQuorumReached else old(phase)
    {
      if !skipVerification {
        if verify(canonical, vote) != Valid { return None; }
      }
      prepareVotes := prepareVotes[vote.validatorId := vote];
      if |GradedVoters(prepareVotes)| >= Quorum(assignedCount) && phase == Collecting {
        phase := PrepareQuorumReached;
        return Some(true);
      }
      return Some(false);
    }

    /** Stores the vote and decides on all votes stored so far. More rejections than assigned validators
        stop a build with overflow checks; without them the difference wraps round to a number far above
        the quorum, and nothing is decided. */
    method RecordCommit(vote: IncomingVote, walk: seq<string>, skipVerification: bool, overflowChecks: bool)
      returns (outcome: Outcome)
      modifies this`phase, this`commitVotes
      ensures outcome.BadSignature? <==> !skipVerification && verify(canonical, vote) != Valid
      ensures outcome.BadSignature? ==> phase == old(phase) && commitVotes == old(commitVotes)
      ensures !outcome.BadSignature? ==> commitVotes == old(commitVotes)[vote.validatorId := vote]
      ensures !outcome.BadSignature? ==>
        match Decide(commitVotes, assignedCount)
        case Verified => outcome == VerifiedBy(ApprovingVotes(commitVotes)) && phase == Finalised
        case Rejected => outcome == RejectedFor(PrimaryReason(commitVotes, walk)) && phase == Failed(outcome.reason)
        case Undecided => outcome == NotYet && phase == old(phase)
        case Overflow => outcome == (if overflowChecks then Panics else NotYet) && phase == old(phase)
    {
      if !skipVerification {
        if verify(canonical, vote) != Valid { return BadSignature; }
      }
      commitVotes := commitVotes[vote.validatorId := vote];
      var approvals := |Approvers(commitVotes)|;
      var rejections := |Rejecters(commitVotes)|;
      var quorum := Quorum(assignedCount);
      if approvals >= quorum {
        phase := Finalised;
        return VerifiedBy(ApprovingVotes(commitVotes));
      }
      if rejections > assignedCount {
        return if overflowChecks then Panics else NotYet;
      }
      var maxPossibleApprovals := assignedCount - rejections;
      if maxPossibleApprovals < quorum {
        var reason := PrimaryReason(commitVotes, walk);
        phase := Failed(reason);
        return RejectedFor(reason);
      }
      return NotYet;
    }
  }

  // ----- agreement

  lemma VotersBounded(votes: Votes, panel: set<string>)
    requires votes.Keys <= panel
    ensures Approvers(votes) <= panel && Rejecters(votes) <= panel
    ensures |Approvers(votes)| + |Rejecters(votes)| <= |panel|
    ensures Decide(votes, |panel|) != Overflow
  {
    hide Graded;
    assert Approvers(votes) !! Rejecters(votes);
    assert |Approvers(votes) + Rejecters(votes)| == |Approvers(votes)| + |Rejecters(votes)|;
    SubsetSize(Approvers(votes) + Rejecters(votes), panel);
  }

  /** If one node verifies a package and another rejects it, some validator told them different things. */
  lemma ConflictNeedsEquivocation(votes: Votes, votes': Votes, panel: set<string>)
    requires votes.Keys <= panel && votes'.Keys <= panel
    requires Decide(votes, |panel|) == Verified && Decide(votes', |panel|) == Rejected
    ensures exists id :: id in Approvers(votes) && id in Rejecters(votes')
  {
    VotersBounded(votes, panel);
    VotersBounded(votes', panel);
    Pigeonhole(Approvers(votes), Rejecters(votes'), panel);
  }

  /** Recording votes one after another. */
  function Record(votes: Votes, ballots: seq<IncomingVote>): Votes
    decreases |ballots|
  {
    if ballots == [] then votes
    else Record(votes[ballots[0].validatorId := ballots[0]], ballots[1..])
  }

  /** Every ballot comes from a validator that has not voted before. */
  ghost predicate OneVoteEach(votes: Votes, ballots: seq<IncomingVote>) {
    && (forall i :: 0 <= i < |ballots| ==> ballots[i].validatorId !in votes)
    && (forall i, j :: 0 <= i < j < |ballots| ==> ballots[i].validatorId != ballots[j].validatorId)
  }

  /** The vote leaves a decision alone: it does not withdraw an approval or a rejection that the
      decision hangs on. */
  predicate Harmless(votes: Votes, v: IncomingVote, count: nat) {
    match Decide(votes, count)
    case Verified =>
      |Approvers(votes)| > Quorum(count) || v.validatorId !in Approvers(votes) || (Graded(v) && v.approved)
    case Rejected =>
      count - |Rejecters(votes)| + 1 < Quorum(count) || v.validatorId !in Rejecters(votes) || (Graded(v) && !v.approved)
    case _ => true
  }

  lemma VoterSets(votes: Votes, v: IncomingVote)
    ensures var votes' := votes[v.validatorId := v];
      && Approvers(votes')
         == Approvers(votes) - {v.validatorId} + (if Graded(v) && v.approved then {v.validatorId} else {})
      && Rejecters(votes')
         == Rejecters(votes) - {v.validatorId} + (if Graded(v) && !v.approved then {v.validatorId} else {})
  {
    hide Graded;
  }

  lemma VoteCounts(votes: Votes, v: IncomingVote)
    ensures var votes' := votes[v.validatorId := v];
      && |Approvers(votes')| == |Approvers(votes)| - (if v.validatorId in Approvers(votes) then 1 else 0)
                                + (if Graded(v) && v.approved then 1 else 0)
      && |Rejecters(votes')| == |Rejecters(votes)| - (if v.validatorId in Rejecters(votes) then 1 else 0)
                                + (if Graded(v) && !v.approved then 1 else 0)
  {
    hide Graded, Approvers, Rejecters;
    var votes' := votes[v.validatorId := v];
    VoterSets(votes, v);
    Replaced(Approvers(votes), v.validatorId, Graded(v) && v.approved, Approvers(votes'));
    Replaced(Rejecters(votes), v.validatorId, Graded(v) && !v.approved, Rejecters(votes'));
  }

  lemma Replaced(ids: set<string>, id: string, back: bool, ids': set<string>)
    requires ids' == ids - {id} + if back then {id} else {}
    ensures |ids'| == |ids| - (if id in ids then 1 else 0) + (if back then 1 else 0)
  {
    assert |ids - {id}| == |ids| - if id in ids then 1 else 0;
  }

  /** A vote, also a second one by the same validator, keeps a decision exactly when it is harmless. */
  lemma DecisionKeptExactlyWhenHarmless(votes: Votes, v: IncomingVote, panel: set<string>)
    requires votes.Keys <= panel && v.validatorId in panel
    requires Decide(votes, |panel|) == Verified || Decide(votes, |panel|) == Rejected
    ensures Decide(votes[v.validatorId := v], |panel|) == Decide(votes, |panel|) <==> Harmless(votes, v, |panel|)
  {
    hide Graded, Approvers, Rejecters;
    var votes' := votes[v.validatorId := v];
    VotersBounded(votes, panel);
    VotersBounded(votes', panel);
    VoteCounts(votes, v);
  }

  lemma NewVoteKeepsDecision(votes: Votes, v: IncomingVote, panel: set<string>)
    requires votes.Keys <= panel && v.validatorId in panel && v.validatorId !in votes
    requires Decide(votes, |panel|) != Undecided
    ensures Decide(votes[v.validatorId := v], |panel|) == Decide(votes, |panel|)
  {
    hide Graded;
    VotersBounded(votes, panel);
    DecisionKeptExactlyWhenHarmless(votes, v, panel);
  }

  /** On one node, with one commit vote a validator, a decision never changes. */
  lemma {:induction false} DecisionIsFinal(votes: Votes, ballots: seq<IncomingVote>, panel: set<string>)
    requires votes.Keys <= panel && OneVoteEach(votes, ballots)
    requires forall i :: 0 <= i < |ballots| ==> ballots[i].validatorId in panel
    requires Decide(votes, |panel|) != Undecided
    ensures Decide(Record(votes, ballots), |panel|) == Decide(votes, |panel|)
    decreases |ballots|
  {
    hide Decide;
    if ballots != [] {
      NewVoteKeepsDecision(votes, ballots[0], panel);
      DecisionIsFinal(votes[ballots[0].validatorId := ballots[0]], ballots[1..], panel);
    }
  }

  // ----- rejection is exactly hopelessness

  /** The votes may still come out this way while the rejections cast so far stand. */
  ghost predicate Continues(votes: Votes, votes': Votes, panel: set<string>) {
    votes'.Keys <= panel && forall id :: id in Rejecters(votes) ==> id in votes' && votes'[id] == votes[id]
  }

  function Approval(id: string): IncomingVote {
    IncomingVote(id, "", "", true, None, "", 0, Some("m"),
                 AnalysisBundles("p", "f", "e", "m", "i", "t", "l", ""), "d")
  }

  lemma ApprovalIsGraded(id: string)
    ensures Graded(Approval(id))
  {
    var v := Approval(id);
    assert forall i :: 0 <= i < 7 ==> Text.Trim(RequiredIds(v.bundles)[i]) == RequiredIds(v.bundles)[i];
    assert Text.TrimStart("osv-off") == "osv-off";
    assert Text.Trim("m") == "m" && Text.Trim("d") == "d" && Text.Trim("osv-off") == "osv-off";
    assert "degraded"[0] == 'd';
    assert Text.Trim("") == "";
  }

  /** Everyone who has not rejected approves. */
  function BestCase(votes: Votes, panel: set<string>): Votes {
    map id | id in panel :: if id in Rejecters(votes) && id in votes then votes[id] else Approval(id)
  }

  lemma BestCaseContinues(votes: Votes, panel: set<string>)
    requires votes.Keys <= panel
    ensures Continues(votes, BestCase(votes, panel), panel)
    ensures |Approvers(BestCase(votes, panel))| == |panel| - |Rejecters(votes)|
  {
    hide Graded;
    forall id ensures Graded(Approval(id)) { ApprovalIsGraded(id); }
    var best := BestCase(votes, panel);
    VotersBounded(votes, panel);
    assert Rejecters(votes) == set id | id in votes && Graded(votes[id]) && !votes[id].approved;
    assert Approvers(best) == panel - Rejecters(votes);
    assert |panel - Rejecters(votes)| == |panel| - |Rejecters(votes)|;
  }

  lemma ContinuationKeepsRejections(votes: Votes, votes': Votes, panel: set<string>)
    requires Continues(votes, votes', panel)
    ensures |Rejecters(votes)| <= |Rejecters(votes')|
  {
    assert Rejecters(votes) <= Rejecters(votes');
    SubsetSize(Rejecters(votes), Rejecters(votes'));
  }

  /** A package is rejected exactly when no continuation in which the cast rejections stand verifies it. */
  lemma RejectedExactlyWhenHopeless(votes: Votes, panel: set<string>)
    requires votes.Keys <= panel
    ensures Decide(votes, |panel|) == Rejected <==>
      !exists votes' :: Continues(votes, votes', panel) && Decide(votes', |panel|) == Verified
  {
    hide Approvers, Rejecters;
    VotersBounded(votes, panel);
    if Decide(votes, |panel|) == Rejected {
      forall votes' | Continues(votes, votes', panel) ensures Decide(votes', |panel|) != Verified {
        ContinuationKeepsRejections(votes, votes', panel);
        VotersBounded(votes', panel);
      }
    } else if Decide(votes, |panel|) == Verified {
      assert Continues(votes, votes, panel) by { SelfContinues(votes, panel); }
    } else {
      BestCaseContinues(votes, panel);
      assert Decide(BestCase(votes, panel), |panel|) == Verified;
    }
  }

  lemma SelfContinues(votes: Votes, panel: set<string>)
    requires votes.Keys <= panel
    ensures Continues(votes, votes, panel)
  {
  }
}
