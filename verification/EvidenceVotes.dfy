/** The batch aggregation of signed evidence votes: last vote per validator, grouped by profile. */
module EvidenceVotes {
  import opened Wrappers
  import opened Ballots
  import opened Counting
  import Text
  import VoteAccumulator

  datatype Vote = Approve | Reject(reason: string)

  datatype Sig = Sig(
    validatorId: string,
    validatorPubkey: string,
    signature: string,
    vote: Vote,
    modelVersion: string,
    bundles: AnalysisBundles,
    evidenceDigest: string)

  datatype Outcome = Verified(sigs: seq<Sig>) | Rejected(reason: string)

  /** The digest of the profile text. */
  type Digest = string -> string

  predicate Graded(s: Sig) { IsConsensusGrade(s.modelVersion, s.bundles, s.evidenceDigest) }

  function ProfileKey(digest: Digest, s: Sig): string {
    digest(ProfileText(s.modelVersion, s.bundles)) + ":" + s.evidenceDigest
  }

  function UniqueKey(s: Sig): string {
    if s.validatorPubkey == "" then "id:" + Text.Lower(s.validatorId)
    else "pubkey:" + Text.Lower(s.validatorPubkey)
  }

  // ----- the simple specification: the last vote of every key

  type Ballot = map<string, Sig>

  function LastVotes(sigs: seq<Sig>): Ballot {
    if sigs == [] then map[]
    else LastVotes(sigs[..|sigs| - 1])[UniqueKey(sigs[|sigs| - 1]) := sigs[|sigs| - 1]]
  }

  predicate Approves(digest: Digest, s: Sig, profile: string) {
    Graded(s) && s.vote == Approve && ProfileKey(digest, s) == profile
  }

  predicate Rejects(s: Sig) { Graded(s) && s.vote.Reject? }

  function Approvers(digest: Digest, ballot: Ballot, profile: string): set<string> {
    set k | k in ballot && Approves(digest, ballot[k], profile)
  }

  function Rejecters(ballot: Ballot): set<string> {
    set k | k in ballot && Rejects(ballot[k])
  }

  ghost predicate SomeProfileReaches(digest: Digest, ballot: Ballot, quorum: nat) {
    exists profile :: |Approvers(digest, ballot, profile)| >= quorum
  }

  // ----- the first pass: a list with one entry per key

  /** The first place of a list with a key, or its length. */
  function FirstWith<T>(list: seq<T>, key: string, keyOf: T -> string): (i: nat)
    ensures i <= |list|
    ensures i < |list| ==> keyOf(list[i]) == key
    ensures forall j :: 0 <= j < i ==> keyOf(list[j]) != key
  {
    if list == [] then 0
    else
      var n := |list| - 1;
      var i := FirstWith(list[..n], key, keyOf);
      if i == n && keyOf(list[n]) != key then n + 1 else i
  }

  /** Where a key stands in the list, or its length. */
  function KeyIndex(unique: seq<Sig>, key: string): (i: nat)
    ensures i <= |unique|
    ensures i < |unique| ==> UniqueKey(unique[i]) == key
    ensures i == |unique| ==> forall j :: 0 <= j < |unique| ==> UniqueKey(unique[j]) != key
  {
    var keyOf := (s: Sig) => UniqueKey(s);
    var i := FirstWith(unique, key, keyOf);
    assert i == |unique| ==> forall j :: 0 <= j < |unique| ==> keyOf(unique[j]) != key;
    i
  }

  /** Keep the place of a key's first vote and the contents of its last. */
  function Absorb(unique: seq<Sig>, s: Sig): seq<Sig> {
    var i := KeyIndex(unique, UniqueKey(s));
    if i < |unique| then unique[i := s] else unique + [s]
  }

  function UniqueVotes(sigs: seq<Sig>): seq<Sig> {
    if sigs == [] then [] else Absorb(UniqueVotes(sigs[..|sigs| - 1]), sigs[|sigs| - 1])
  }

  ghost predicate DistinctKeys(unique: seq<Sig>) {
    forall i, j :: 0 <= i < j < |unique| ==> UniqueKey(unique[i]) != UniqueKey(unique[j])
  }

  ghost predicate ListsBallot(unique: seq<Sig>, ballot: Ballot) {
    && DistinctKeys(unique)
    && (forall i :: 0 <= i < |unique| ==> UniqueKey(unique[i]) in ballot && ballot[UniqueKey(unique[i])] == unique[i])
    && (forall k :: k in ballot ==> exists i :: 0 <= i < |unique| && UniqueKey(unique[i]) == k)
  }

  lemma AbsorbLists(unique: seq<Sig>, ballot: Ballot, s: Sig)
    requires ListsBallot(unique, ballot)
    ensures ListsBallot(Absorb(unique, s), ballot[UniqueKey(s) := s])
  {
    hide UniqueKey;
    var i := KeyIndex(unique, UniqueKey(s));
    var unique' := Absorb(unique, s);
    var ballot' := ballot[UniqueKey(s) := s];
    forall k | k in ballot' ensures exists j :: 0 <= j < |unique'| && UniqueKey(unique'[j]) == k {
      if k == UniqueKey(s) {
        assert UniqueKey(unique'[i]) == k;
      } else {
        var j :| 0 <= j < |unique| && UniqueKey(unique[j]) == k;
        assert UniqueKey(unique'[j]) == k;
      }
    }
  }

  /** The list is the last vote of every key. */
  lemma {:induction false} UniqueVotesList(sigs: seq<Sig>)
    ensures ListsBallot(UniqueVotes(sigs), LastVotes(sigs))
  {
    hide Absorb;
    if sigs != [] {
      var n := |sigs| - 1;
      UniqueVotesList(sigs[..n]);
      AbsorbLists(UniqueVotes(sigs[..n]), LastVotes(sigs[..n]), sigs[n]);
    }
  }

  ghost predicate Indexes(seen: map<string, nat>, unique: seq<Sig>) {
    && (forall k :: k in seen ==> seen[k] < |unique| && UniqueKey(unique[seen[k]]) == k)
    && (forall i :: 0 <= i < |unique| ==> UniqueKey(unique[i]) in seen && seen[UniqueKey(unique[i])] == i)
  }

  method Deduplicate(sigs: seq<Sig>) returns (unique: seq<Sig>)
    ensures unique == UniqueVotes(sigs)
  {
    hide UniqueKey;
    var seen: map<string, nat> := map[];
    unique := [];
    for i := 0 to |sigs|
      invariant unique == UniqueVotes(sigs[..i])
      invariant Indexes(seen, unique)
    {
      var s := sigs[i];
      assert sigs[..i + 1][..i] == sigs[..i];
      var key := UniqueKey(s);
      if key in seen {
        assert KeyIndex(unique, key) == seen[key];
        unique := unique[seen[key] := s];
      } else {
        assert KeyIndex(unique, key) == |unique|;
        seen := seen[key := |unique|];
        unique := unique + [s];
      }
    }
    assert sigs[..|sigs|] == sigs;
  }

  // ----- the second pass

  /** The entries of a list with a property, in order. */
  function Filter(unique: seq<Sig>, p: Sig -> bool): (r: seq<Sig>)
    ensures forall s :: s in r <==> s in unique && p(s)
  {
    if unique == [] then []
    else
      var n := |unique| - 1;
      assert unique == unique[..n] + [unique[n]];
      Filter(unique[..n], p) + if p(unique[n]) then [unique[n]] else []
  }

  function KeysOf(list: seq<Sig>): set<string> { set s | s in list :: UniqueKey(s) }

  lemma {:induction false} FilterDistinct(unique: seq<Sig>, p: Sig -> bool)
    requires DistinctKeys(unique)
    ensures DistinctKeys(Filter(unique, p))
  {
    hide UniqueKey;
    if unique != [] {
      var n := |unique| - 1;
      FilterDistinct(unique[..n], p);
      var f := Filter(unique[..n], p);
      forall i | 0 <= i < |f| ensures UniqueKey(f[i]) != UniqueKey(unique[n]) {
        assert f[i] in unique[..n];
      }
    }
  }

  lemma {:induction false} KeyCount(list: seq<Sig>)
    requires DistinctKeys(list)
    ensures |KeysOf(list)| == |list|
  {
    hide UniqueKey;
    if list != [] {
      var n := |list| - 1;
      KeyCount(list[..n]);
      assert list == list[..n] + [list[n]];
      assert KeysOf(list) == KeysOf(list[..n]) + {UniqueKey(list[n])};
      assert UniqueKey(list[n]) !in KeysOf(list[..n]);
    }
  }

  lemma BallotCounts(unique: seq<Sig>, ballot: Ballot, p: Sig -> bool)
    requires ListsBallot(unique, ballot)
    ensures |Filter(unique, p)| == |set k | k in ballot && p(ballot[k])|
  {
    hide UniqueKey, Filter;
    FilterDistinct(unique, p);
    KeyCount(Filter(unique, p));
    var keys := set k | k in ballot && p(ballot[k]);
    forall k | k in keys ensures k in KeysOf(Filter(unique, p)) {
      var i :| 0 <= i < |unique| && UniqueKey(unique[i]) == k;
      assert unique[i] in Filter(unique, p);
    }
    assert KeysOf(Filter(unique, p)) == keys;
  }

  function ApprovalsOf(digest: Digest, unique: seq<Sig>, profile: string): seq<Sig> {
    Filter(unique, s => Approves(digest, s, profile))
  }

  function RejectionsOf(unique: seq<Sig>): seq<Sig> { Filter(unique, s => Rejects(s)) }

  function FirstReason(rejections: seq<Sig>): string
    requires forall s :: s in rejections ==> s.vote.Reject?
  {
    if rejections == [] then "Consensus rejected" else rejections[0].vote.reason
  }

  /** A quorum of distinct keys whose last votes approve under one profile. */
  ghost predicate ApprovalQuorum(digest: Digest, ballot: Ballot, quorum: nat, sigs: seq<Sig>) {
    && |sigs| == quorum && DistinctKeys(sigs)
    && (forall i :: 0 <= i < |sigs| ==> UniqueKey(sigs[i]) in ballot && ballot[UniqueKey(sigs[i])] == sigs[i])
    && exists profile :: AllApprove(digest, sigs, profile)
  }

  ghost predicate AllApprove(digest: Digest, sigs: seq<Sig>, profile: string) {
    forall s :: s in sigs ==> Approves(digest, s, profile)
  }

  /** Counting over the list: a verdict as soon as one profile has a quorum of approvals. */
  method Tally(digest: Digest, unique: seq<Sig>, assignedCount: nat) returns (r: Option<Outcome>)
    ensures r.Some? && r.value.Verified? ==>
      exists i, profile :: 0 <= i <= |unique| && r.value.sigs == ApprovalsOf(digest, unique[..i], profile)
                           && |r.value.sigs| == Quorum(assignedCount)
    ensures !(r.Some? && r.value.Verified?) ==>
      forall profile :: |ApprovalsOf(digest, unique, profile)| < Quorum(assignedCount)
    ensures !(r.Some? && r.value.Verified?) ==>
      var rejections := RejectionsOf(unique);
      r == if assignedCount - |rejections| >= Quorum(assignedCount) then None
           else Some(Rejected(FirstReason(rejections)))
  {
    hide Graded, ProfileKey, Filter;
    var quorum := Quorum(assignedCount);
    var approvals: map<string, seq<Sig>> := map[];
    var rejections: seq<string> := [];
    EmptyFilters(digest);
    for i := 0 to |unique|
      invariant forall p :: ApprovalsOf(digest, unique[..i], p) == if p in approvals then approvals[p] else []
      invariant forall p :: p in approvals ==> |approvals[p]| < quorum
      invariant rejections == Reasons(RejectionsOf(unique[..i]))
    {
      var s := unique[i];
      StepFilters(digest, unique, i);
      if !Graded(s) { continue; }
      var key := ProfileKey(digest, s);
      match s.vote
      case Approve =>
        approvals := approvals[key := (if key in approvals then approvals[key] else []) + [s]];
        if |approvals[key]| >= quorum {
          assert approvals[key] == ApprovalsOf(digest, unique[..i + 1], key);
          return Some(Verified(approvals[key]));
        }
      case Reject(reason) =>
        rejections := rejections + [reason];
    }
    assert unique[..|unique|] == unique;
    var maxPossibleApprovals := if |rejections| > assignedCount then 0 else assignedCount - |rejections|;
    if maxPossibleApprovals < quorum {
      return Some(Rejected(if rejections == [] then "Consensus rejected" else rejections[0]));
    }
    return None;
  }

  function Reasons(rejections: seq<Sig>): (rs: seq<string>)
    requires forall s :: s in rejections ==> s.vote.Reject?
    ensures |rs| == |rejections|
  {
    seq(|rejections|, i requires 0 <= i < |rejections| => rejections[i].vote.reason)
  }

  lemma EmptyFilters(digest: Digest)
    ensures forall p :: ApprovalsOf(digest, [], p) == []
    ensures RejectionsOf([]) == []
  {
  }

  lemma StepFilters(digest: Digest, unique: seq<Sig>, i: nat)
    requires i < |unique|
    ensures forall p ::
      ApprovalsOf(digest, unique[..i + 1], p)
      == ApprovalsOf(digest, unique[..i], p) + if Approves(digest, unique[i], p) then [unique[i]] else []
    ensures RejectionsOf(unique[..i + 1]) == RejectionsOf(unique[..i]) + if Rejects(unique[i]) then [unique[i]] else []
  {
    assert unique[..i + 1][..i] == unique[..i];
  }

  // ----- the verdict is that of the simple specification

  ghost predicate IsVerified(r: Option<Outcome>) { r.Some? && r.value.Verified? }

  ghost predicate IsRejected(r: Option<Outcome>) { r.Some? && r.value.Rejected? }

  /** Too many rejections for any profile to reach a quorum. */
  ghost predicate Hopeless(ballot: Ballot, assignedCount: nat) {
    assignedCount - |Rejecters(ballot)| < Quorum(assignedCount)
  }

  ghost predicate IsVerdict(digest: Digest, sigs: seq<Sig>, assignedCount: nat, r: Option<Outcome>) {
    var ballot := LastVotes(sigs);
    var quorum := Quorum(assignedCount);
    && (IsVerified(r) <==> SomeProfileReaches(digest, ballot, quorum))
    && (IsVerified(r) ==> ApprovalQuorum(digest, ballot, quorum, r.value.sigs))
    && (IsRejected(r) <==> !SomeProfileReaches(digest, ballot, quorum) && Hopeless(ballot, assignedCount))
    && (IsRejected(r) ==> r.value.reason == FirstReason(RejectionsOf(UniqueVotes(sigs))))
  }

  lemma ListCounts(digest: Digest, unique: seq<Sig>, ballot: Ballot)
    requires ListsBallot(unique, ballot)
    ensures forall p :: |ApprovalsOf(digest, unique, p)| == |Approvers(digest, ballot, p)|
    ensures |RejectionsOf(unique)| == |Rejecters(ballot)|
  {
    hide Filter, UniqueKey, Rejects, Approves;
    forall p ensures |ApprovalsOf(digest, unique, p)| == |Approvers(digest, ballot, p)| {
      BallotCounts(unique, ballot, s => Approves(digest, s, p));
      assert Approvers(digest, ballot, p) == set k | k in ballot && (s => Approves(digest, s, p))(ballot[k]);
    }
    BallotCounts(unique, ballot, s => Rejects(s));
    assert Rejecters(ballot) == set k | k in ballot && (s => Rejects(s))(ballot[k]);
  }

  lemma {:induction false} FilterPrefix(unique: seq<Sig>, i: nat, p: Sig -> bool)
    requires i <= |unique|
    ensures |Filter(unique[..i], p)| <= |Filter(unique, p)|
    decreases |unique| - i
  {
    if i < |unique| {
      assert unique[..i + 1][..i] == unique[..i];
      FilterPrefix(unique, i + 1, p);
    } else {
      assert unique[..i] == unique;
    }
  }

  lemma PrefixQuorum(
    digest: Digest, unique: seq<Sig>, ballot: Ballot, quorum: nat, i: nat, profile: string, sigs: seq<Sig>)
    requires ListsBallot(unique, ballot) && i <= |unique|
    requires sigs == ApprovalsOf(digest, unique[..i], profile) && |sigs| == quorum
    ensures ApprovalQuorum(digest, ballot, quorum, sigs) && SomeProfileReaches(digest, ballot, quorum)
  {
    hide Filter, UniqueKey, Approves;
    FilterDistinct(unique[..i], s => Approves(digest, s, profile));
    assert AllApprove(digest, sigs, profile);
    forall j | 0 <= j < |sigs| ensures UniqueKey(sigs[j]) in ballot && ballot[UniqueKey(sigs[j])] == sigs[j] {
      assert sigs[j] in unique[..i];
      var k :| 0 <= k < i && unique[k] == sigs[j];
    }
    FilterPrefix(unique, i, s => Approves(digest, s, profile));
    ListCounts(digest, unique, ballot);
    assert |Approvers(digest, ballot, profile)| >= quorum;
  }

  method AggregateEvidenceVotes(digest: Digest, sigs: seq<Sig>, assignedCount: nat) returns (r: Option<Outcome>)
    ensures IsVerdict(digest, sigs, assignedCount, r)
  {
    hide Filter, UniqueKey, LastVotes, UniqueVotes, ListsBallot, ApprovalQuorum, Approvers, Rejecters;
    var unique := Deduplicate(sigs);
    UniqueVotesList(sigs);
    ListCounts(digest, unique, LastVotes(sigs));
    r := Tally(digest, unique, assignedCount);
    if IsVerified(r) {
      ghost var i, profile :| 0 <= i <= |unique| && r.value.sigs == ApprovalsOf(digest, unique[..i], profile)
                              && |r.value.sigs| == Quorum(assignedCount);
      PrefixQuorum(digest, unique, LastVotes(sigs), Quorum(assignedCount), i, profile, r.value.sigs);
    }
  }

  /** When no more keys vote than validators are assigned, one profile at most reaches a quorum. */
  lemma OneProfileAtMost(digest: Digest, ballot: Ballot, assignedCount: nat, p: string, p': string)
    requires |ballot| <= assignedCount
    requires |Approvers(digest, ballot, p)| >= Quorum(assignedCount)
    requires |Approvers(digest, ballot, p')| >= Quorum(assignedCount)
    ensures p == p'
  {
    var (a, a') := (Approvers(digest, ballot, p), Approvers(digest, ballot, p'));
    assert |ballot.Keys| == |ballot|;
    Pigeonhole(a, a', ballot.Keys);
  }

  lemma {:induction false} DistinctListed(sigs: seq<Sig>)
    requires DistinctKeys(sigs)
    ensures ListsBallot(sigs, LastVotes(sigs))
  {
    hide UniqueKey;
    if sigs != [] {
      var n := |sigs| - 1;
      var (earlier, s) := (sigs[..n], sigs[n]);
      DistinctListed(earlier);
      assert KeyIndex(earlier, UniqueKey(s)) == n;
      assert Absorb(earlier, s) == sigs;
      AbsorbLists(earlier, LastVotes(earlier), s);
    }
  }

  lemma SameLastVotes(sigs: seq<Sig>, sigs': seq<Sig>)
    requires DistinctKeys(sigs) && DistinctKeys(sigs') && forall s :: s in sigs <==> s in sigs'
    ensures LastVotes(sigs) == LastVotes(sigs')
  {
    hide UniqueKey, LastVotes;
    DistinctListed(sigs);
    DistinctListed(sigs');
    var (b, b') := (LastVotes(sigs), LastVotes(sigs'));
    SubBallot(sigs, b, sigs', b');
    SubBallot(sigs', b', sigs, b);
    assert b.Keys == b'.Keys;
  }

  /** With one vote per key, the votes in another order give the same kind of verdict. */
  lemma OrderDoesNotMatter(
    digest: Digest, sigs: seq<Sig>, sigs': seq<Sig>, assignedCount: nat, r: Option<Outcome>, r': Option<Outcome>)
    requires DistinctKeys(sigs) && DistinctKeys(sigs') && forall s :: s in sigs <==> s in sigs'
    requires IsVerdict(digest, sigs, assignedCount, r) && IsVerdict(digest, sigs', assignedCount, r')
    ensures (IsVerified(r) <==> IsVerified(r')) && (IsRejected(r) <==> IsRejected(r'))
  {
    hide UniqueKey, LastVotes, ApprovalQuorum, SomeProfileReaches, UniqueVotes, RejectionsOf;
    SameLastVotes(sigs, sigs');
  }

  lemma SubBallot(sigs: seq<Sig>, b: Ballot, sigs': seq<Sig>, b': Ballot)
    requires ListsBallot(sigs, b) && ListsBallot(sigs', b') && forall s :: s in sigs ==> s in sigs'
    ensures forall k :: k in b ==> k in b' && b'[k] == b[k]
  {
    hide UniqueKey;
    forall k | k in b ensures k in b' && b'[k] == b[k] {
      var i :| 0 <= i < |sigs| && UniqueKey(sigs[i]) == k;
      assert sigs[i] in sigs';
      var j :| 0 <= j < |sigs'| && sigs'[j] == sigs[i];
    }
  }

  /** The reason of a rejection is that of the first key, in the order the keys came up, whose last vote
      rejects. */
  lemma RejectedForTheFirst(unique: seq<Sig>, k: nat)
    requires k < |unique| && Rejects(unique[k]) && forall i :: 0 <= i < k ==> !Rejects(unique[i])
    ensures FirstReason(RejectionsOf(unique)) == unique[k].vote.reason
  {
    hide Rejects;
    FirstFiltered(unique, s => Rejects(s), k);
  }

  lemma {:induction false} FirstFiltered(list: seq<Sig>, p: Sig -> bool, k: nat)
    requires k < |list| && p(list[k]) && forall i :: 0 <= i < k ==> !p(list[i])
    ensures Filter(list, p) != [] && Filter(list, p)[0] == list[k]
    decreases |list|
  {
    var n := |list| - 1;
    assert forall i :: 0 <= i < n ==> list[..n][i] == list[i];
    if k < n {
      FirstFiltered(list[..n], p, k);
    } else {
      NoneFiltered(list[..n], p);
    }
  }

  lemma {:induction false} NoneFiltered(list: seq<Sig>, p: Sig -> bool)
    requires forall i :: 0 <= i < |list| ==> !p(list[i])
    ensures Filter(list, p) == []
  {
    if list != [] { NoneFiltered(list[..|list| - 1], p); }
  }

  // ----- votes that do not count

  predicate Defective(s: Sig) { Ballots.Defective(s.modelVersion, s.bundles, s.evidenceDigest) }

  lemma DefectiveCountsNowhere(digest: Digest, s: Sig)
    requires Defective(s)
    ensures !Rejects(s) && forall p :: !Approves(digest, s, p)
  {
    hide Ballots.Defective, IsConsensusGrade;
    GradeExactlyWhenNotDefective(s.modelVersion, s.bundles, s.evidenceDigest);
  }

  /** One without a defect counts for its own profile or as a rejection. */
  lemma SoundCounts(digest: Digest, s: Sig)
    requires !Defective(s)
    ensures if s.vote == Approve then !Rejects(s) && forall p :: Approves(digest, s, p) <==> p == ProfileKey(digest, s)
            else Rejects(s) && forall p :: !Approves(digest, s, p)
  {
    hide Ballots.Defective, IsConsensusGrade, ProfileKey;
    GradeExactlyWhenNotDefective(s.modelVersion, s.bundles, s.evidenceDigest);
  }

  /** Ballots that agree but for votes that count nowhere. */
  ghost predicate AlikeButDefective(b: Ballot, b': Ballot) {
    b.Keys == b'.Keys && forall k :: k in b ==> b[k] == b'[k] || (Defective(b[k]) && Defective(b'[k]))
  }

  lemma {:induction false} LastVotesAlike(sigs: seq<Sig>, i: nat, other: Sig)
    requires i < |sigs| && Defective(sigs[i]) && Defective(other) && UniqueKey(other) == UniqueKey(sigs[i])
    ensures AlikeButDefective(LastVotes(sigs), LastVotes(sigs[i := other]))
    decreases |sigs|
  {
    hide UniqueKey, Defective;
    var (n, sigs') := (|sigs| - 1, sigs[i := other]);
    if i == n {
      assert sigs'[..n] == sigs[..n];
    } else {
      LastVotesAlike(sigs[..n], i, other);
      assert sigs'[..n] == sigs[..n][i := other] && sigs'[n] == sigs[n];
    }
  }

  lemma AlikeVoters(digest: Digest, b: Ballot, b': Ballot)
    requires AlikeButDefective(b, b')
    ensures Rejecters(b) == Rejecters(b') && forall p :: Approvers(digest, b, p) == Approvers(digest, b', p)
  {
    hide Rejects, Approves, Defective;
    forall k | k in b && Defective(b[k])
      ensures !Rejects(b[k]) && forall p :: !Approves(digest, b[k], p)
    {
      DefectiveCountsNowhere(digest, b[k]);
    }
    forall k | k in b' && Defective(b'[k])
      ensures !Rejects(b'[k]) && forall p :: !Approves(digest, b'[k], p)
    {
      DefectiveCountsNowhere(digest, b'[k]);
    }
  }

  /** What a vote with a defect says does not matter: with any other such vote of its key in its place the
      verdict is of the same kind. */
  lemma DefectiveVoteDecidesNothing(
    digest: Digest, sigs: seq<Sig>, i: nat, other: Sig, assignedCount: nat, r: Option<Outcome>, r': Option<Outcome>)
    requires i < |sigs| && Defective(sigs[i]) && Defective(other) && UniqueKey(other) == UniqueKey(sigs[i])
    requires IsVerdict(digest, sigs, assignedCount, r) && IsVerdict(digest, sigs[i := other], assignedCount, r')
    ensures (IsVerified(r) <==> IsVerified(r')) && (IsRejected(r) <==> IsRejected(r'))
  {
    hide UniqueKey, Defective, LastVotes, ApprovalQuorum, UniqueVotes, RejectionsOf, AlikeButDefective;
    LastVotesAlike(sigs, i, other);
    AlikeVoters(digest, LastVotes(sigs), LastVotes(sigs[i := other]));
  }

  // ----- keys

  /** Two votes stand under one key exactly when both carry public keys, the same up to case, or neither
      does and their ids are the same up to case. */
  lemma KeysAgreeExactlyWhen(s: Sig, t: Sig)
    ensures UniqueKey(s) == UniqueKey(t) <==>
            if s.validatorPubkey != "" && t.validatorPubkey != ""
            then Text.SameText(s.validatorPubkey, t.validatorPubkey)
            else s.validatorPubkey == t.validatorPubkey == "" && Text.SameText(s.validatorId, t.validatorId)
  {
    hide Text.Lower, Text.SameText;
    Text.LowerExactlyWhenSame(s.validatorPubkey, t.validatorPubkey);
    Text.LowerExactlyWhenSame(s.validatorId, t.validatorId);
    var (k, l) := (UniqueKey(s), UniqueKey(t));
    assert s.validatorPubkey == "" ==> k[0] == 'i' && k[3..] == Text.Lower(s.validatorId);
    assert t.validatorPubkey == "" ==> l[0] == 'i' && l[3..] == Text.Lower(t.validatorId);
    assert s.validatorPubkey != "" ==> k[0] == 'p' && k[7..] == Text.Lower(s.validatorPubkey);
    assert t.validatorPubkey != "" ==> l[0] == 'p' && l[7..] == Text.Lower(t.validatorPubkey);
  }

  /** Votes are of one profile exactly when their profile texts and evidence digests are the same, if the
      digests of the two texts are of one length and tell them apart. */
  lemma ProfilesAgreeExactlyWhen(digest: Digest, s: Sig, t: Sig)
    requires var (a, b) := (ProfileText(s.modelVersion, s.bundles), ProfileText(t.modelVersion, t.bundles));
             |digest(a)| == |digest(b)| && (digest(a) == digest(b) ==> a == b)
    ensures ProfileKey(digest, s) == ProfileKey(digest, t) <==>
            && ProfileText(s.modelVersion, s.bundles) == ProfileText(t.modelVersion, t.bundles)
            && s.evidenceDigest == t.evidenceDigest
  {
    hide ProfileText;
    var (a, b) := (digest(ProfileText(s.modelVersion, s.bundles)), digest(ProfileText(t.modelVersion, t.bundles)));
    var (k, l) := (ProfileKey(digest, s), ProfileKey(digest, t));
    assert k[..|a|] == a && k[|a| + 1..] == s.evidenceDigest;
    assert l[..|b|] == b && l[|b| + 1..] == t.evidenceDigest;
  }

  // ----- against the incremental accumulator

  function ToIncoming(s: Sig): VoteAccumulator.IncomingVote {
    VoteAccumulator.IncomingVote(
      s.validatorId, s.validatorPubkey, "", s.vote == Approve,
      if s.vote.Reject? then Some(s.vote.reason) else None,
      s.signature, 0, Some(s.modelVersion), s.bundles, s.evidenceDigest)
  }

  function LastById(sigs: seq<Sig>): map<string, Sig> {
    if sigs == [] then map[]
    else LastById(sigs[..|sigs| - 1])[sigs[|sigs| - 1].validatorId := sigs[|sigs| - 1]]
  }

  /** What the accumulator holds after recording the same ballots in order. */
  function Recorded(sigs: seq<Sig>): VoteAccumulator.Votes {
    VoteAccumulator.Record(map[], seq(|sigs|, i requires 0 <= i < |sigs| => ToIncoming(sigs[i])))
  }

  lemma {:induction false} RecordLast(
      votes: VoteAccumulator.Votes, ballots: seq<VoteAccumulator.IncomingVote>, v: VoteAccumulator.IncomingVote)
    ensures VoteAccumulator.Record(votes, ballots + [v]) == VoteAccumulator.Record(votes, ballots)[v.validatorId := v]
    decreases |ballots|
  {
    if ballots == [] {
      assert [v][1..] == [];
      assert VoteAccumulator.Record(votes[v.validatorId := v], []) == votes[v.validatorId := v];
    } else {
      assert (ballots + [v])[1..] == ballots[1..] + [v];
      RecordLast(votes[ballots[0].validatorId := ballots[0]], ballots[1..], v);
    }
  }

  function Converted(m: map<string, Sig>): VoteAccumulator.Votes {
    map id | id in m :: ToIncoming(m[id])
  }

  lemma {:induction false} RecordedIsLast(sigs: seq<Sig>)
    ensures Recorded(sigs) == Converted(LastById(sigs))
  {
    hide ToIncoming;
    if sigs != [] {
      var n := |sigs| - 1;
      RecordedIsLast(sigs[..n]);
      var earlier := seq(n, i requires 0 <= i < n => ToIncoming(sigs[..n][i]));
      ConvertedId(sigs[n]);
      RecordLast(map[], earlier, ToIncoming(sigs[n]));
      assert earlier + [ToIncoming(sigs[n])] == seq(|sigs|, i requires 0 <= i < |sigs| => ToIncoming(sigs[i]));
    }
  }

  lemma ConvertedId(s: Sig)
    ensures ToIncoming(s).validatorId == s.validatorId
  {
  }

  /** Ids and keys correspond one to one. */
  ghost predicate OneToOne(sigs: seq<Sig>) {
    forall s, t :: s in sigs && t in sigs ==> (UniqueKey(s) == UniqueKey(t) <==> s.validatorId == t.validatorId)
  }

  ghost predicate Matches(byId: map<string, Sig>, byKey: Ballot, sigs: seq<Sig>) {
    && (forall id :: id in byId ==>
          byId[id] in sigs && byId[id].validatorId == id
          && UniqueKey(byId[id]) in byKey && byKey[UniqueKey(byId[id])] == byId[id])
    && (forall k :: k in byKey ==>
          byKey[k] in sigs && UniqueKey(byKey[k]) == k
          && byKey[k].validatorId in byId && byId[byKey[k].validatorId] == byKey[k])
  }

  lemma {:induction false} LastVotesMatch(sigs: seq<Sig>)
    requires OneToOne(sigs)
    ensures Matches(LastById(sigs), LastVotes(sigs), sigs)
  {
    hide UniqueKey;
    if sigs != [] {
      var n := |sigs| - 1;
      assert sigs == sigs[..n] + [sigs[n]];
      LastVotesMatch(sigs[..n]);
    }
  }

  lemma MatchedCounts(byId: map<string, Sig>, byKey: Ballot, sigs: seq<Sig>, p: Sig -> bool)
    requires Matches(byId, byKey, sigs)
    ensures |set id | id in byId && p(byId[id])| == |set k | k in byKey && p(byKey[k])|
  {
    hide UniqueKey;
    var ids := set id | id in byId && p(byId[id]);
    var keys := set k | k in byKey && p(byKey[k]);
    SameSize(ids, keys,
             id => if id in byId then UniqueKey(byId[id]) else "",
             k => if k in byKey then byKey[k].validatorId else "");
  }

  /** The keys whose last vote is a consensus-grade approval, whatever the profile. */
  function AllApprovers(ballot: Ballot): set<string> {
    set k | k in ballot && Graded(ballot[k]) && ballot[k].vote == Approve
  }

  lemma SameGrade(s: Sig)
    ensures VoteAccumulator.Graded(ToIncoming(s)) == Graded(s)
    ensures ToIncoming(s).approved == (s.vote == Approve)
  {
  }

  lemma ConvertedVoters(byId: map<string, Sig>)
    ensures VoteAccumulator.Approvers(Converted(byId))
         == set id | id in byId && Graded(byId[id]) && byId[id].vote == Approve
    ensures VoteAccumulator.Rejecters(Converted(byId)) == set id | id in byId && Rejects(byId[id])
  {
    hide Graded, VoteAccumulator.Graded, ToIncoming;
    forall id | id in byId
      ensures VoteAccumulator.Graded(ToIncoming(byId[id])) == Graded(byId[id])
      ensures ToIncoming(byId[id]).approved == (byId[id].vote == Approve)
    {
      SameGrade(byId[id]);
    }
  }

  lemma AccumulatorCounts(sigs: seq<Sig>)
    requires OneToOne(sigs)
    ensures |VoteAccumulator.Approvers(Recorded(sigs))| == |AllApprovers(LastVotes(sigs))|
    ensures |VoteAccumulator.Rejecters(Recorded(sigs))| == |Rejecters(LastVotes(sigs))|
  {
    hide UniqueKey, Graded, VoteAccumulator.Approvers, VoteAccumulator.Rejecters, LastVotes, LastById, Recorded,
         Converted, Matches;
    var (byId, byKey) := (LastById(sigs), LastVotes(sigs));
    RecordedIsLast(sigs);
    ConvertedVoters(byId);
    LastVotesMatch(sigs);
    var approve := (s: Sig) => Graded(s) && s.vote == Approve;
    MatchedCounts(byId, byKey, sigs, approve);
    assert (set id | id in byId && Graded(byId[id]) && byId[id].vote == Approve)
        == set id | id in byId && approve(byId[id]);
    assert AllApprovers(byKey) == set k | k in byKey && approve(byKey[k]);
    var reject := (s: Sig) => Rejects(s);
    MatchedCounts(byId, byKey, sigs, reject);
    assert (set id | id in byId && Rejects(byId[id])) == set id | id in byId && reject(byId[id]);
    assert Rejecters(byKey) == set k | k in byKey && reject(byKey[k]);
  }

  ghost predicate OneProfile(digest: Digest, ballot: Ballot, profile: string) {
    forall k :: k in ballot && Graded(ballot[k]) ==> ProfileKey(digest, ballot[k]) == profile
  }

  lemma ProfileCounts(digest: Digest, ballot: Ballot, p: string)
    ensures |Approvers(digest, ballot, p)| <= |AllApprovers(ballot)|
    ensures OneProfile(digest, ballot, p) ==> Approvers(digest, ballot, p) == AllApprovers(ballot)
    ensures |AllApprovers(ballot)| + |Rejecters(ballot)| <= |ballot|
  {
    hide Graded, ProfileKey;
    SubsetSize(Approvers(digest, ballot, p), AllApprovers(ballot));
    assert AllApprovers(ballot) !! Rejecters(ballot);
    assert |AllApprovers(ballot) + Rejecters(ballot)| == |AllApprovers(ballot)| + |Rejecters(ballot)|;
    SubsetSize(AllApprovers(ballot) + Rejecters(ballot), ballot.Keys);
    assert |ballot.Keys| == |ballot|;
  }

  /** On the same ballots, a decision of the batch is the decision of the accumulator; and with one
      profile among the consensus-grade votes the two always agree. */
  lemma AgreesWithAccumulator(digest: Digest, sigs: seq<Sig>, assignedCount: nat, r: Option<Outcome>)
    requires OneToOne(sigs) && |LastVotes(sigs)| <= assignedCount
    requires IsVerdict(digest, sigs, assignedCount, r)
    ensures IsVerified(r) ==> VoteAccumulator.Decide(Recorded(sigs), assignedCount) == VoteAccumulator.Verified
    ensures IsRejected(r) ==> VoteAccumulator.Decide(Recorded(sigs), assignedCount) == VoteAccumulator.Rejected
    ensures (exists p :: OneProfile(digest, LastVotes(sigs), p)) ==>
      match VoteAccumulator.Decide(Recorded(sigs), assignedCount)
      case Verified => IsVerified(r)
      case Rejected => IsRejected(r)
      case Undecided => r.None?
      case Overflow => false
  {
    hide LastVotes, Recorded, Approvers, AllApprovers, Rejecters, VoteAccumulator.Approvers, VoteAccumulator.Rejecters,
         UniqueVotes, RejectionsOf, FirstReason, ApprovalQuorum, OneProfile;
    var ballot := LastVotes(sigs);
    var quorum := Quorum(assignedCount);
    AccumulatorCounts(sigs);
    if SomeProfileReaches(digest, ballot, quorum) {
      var p :| |Approvers(digest, ballot, p)| >= quorum;
      ProfileCounts(digest, ballot, p);
    } else {
      ProfileCounts(digest, ballot, "");
    }
    if exists p :: OneProfile(digest, ballot, p) {
      var p :| OneProfile(digest, ballot, p);
      ProfileCounts(digest, ballot, p);
    }
  }
}
