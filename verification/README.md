# A verified model of the chain registry core

This project models the logic at the core of a package registry that runs on its own chain, and
proves what that logic promises. It is written in Dafny 4.11; `dafny verify dfyconfig.toml` checks all of it.

| files | part of the system |
|---|---|
| Gf256, Polynomials, Hex, Shamir | splitting a private key among guardians and putting it together again |
| MessageOrderer, OrdererRuns | in-order delivery of cross-chain messages with replay protection |
| Sorting, Proposers | choosing and ranking block proposers |
| Pbft, PbftRuns, PbftSafety, PbftVotes | one round of the block consensus: its steps, its runs, agreement between rounds, and what votes, certificates and time do to it |
| PbftEngine, EngineRuns, EngineViews | the engine that keeps one round for each block hash: its runs, and how far a round gets under it |
| Ballots, VoteAccumulator, EvidenceVotes | the two ways in which votes on a package become a decision |
| Json, CanonicalJson, JsonShortest, JsonStandard | the canonical JSON printer that chain specifications are hashed through, and where it departs from its standard |
| Merkle | the Merkle root of a block's transactions |
| Mirror, MirrorRows, SyncWorker | the relational mirror of the chain, what its rows say, and the worker that keeps it in step |
| Identifiers | package identifiers and signed messages as text |
| Insurance | the insurance pool's books |
| Counting, Text, Wrappers | sizes of sets, strings, option types |

Where the code changes fields in place the model is a class whose methods are proved against functions on
the abstract state (`AfterIngest`, `AfterCommit`, `AfterTick`, ...); the theorems are then about those
functions, over every input or every run. Loops of the code are loops here. Hashing, signatures and the
scores derived from hashes are function parameters. Random draws, the clock, the order in which a hash map
is walked and the outcome of database calls are parameters too, so every theorem holds for all of them.

## What is proved

* Key recovery. Bytes under the code's multiplication are a field, its inversion chain computes inverses,
  and the Lagrange loop recovers every polynomial from enough points. So any list of at least `threshold`
  shares of one split, with different indices among those used, gives the key back, and a list of used
  indices always does so exactly when they differ. One share fewer fits every secret, with exactly one
  choice of coefficients for each byte. A key is split exactly when it is hexadecimal and the counts are in range.
* Message ordering. In every run, whatever the ids, the messages delivered for a source are numbered 0, 1,
  2, ... without gap or repeat. Everything due is delivered in every run with given arrivals exactly when no
  two due messages share an id; then arrival order, repetition and pruning make no difference.
* Consensus rounds. Two finalised rounds over the same active validators share more than a third of them as
  signers of both, so with at most a third faulty they carry the same block; the same holds for the rounds
  that two engines have finalised, whatever their runs. A round driven through its own operations changes its
  phase or view at most `4 * max_view_changes + 4` times; a round driven by the engine, which proposes only
  when it creates the round, at most `max_view_changes + 4` times. Both bounds are attained. Under the engine a
  round is voted on in its first view only: after a view change it waits for a proposal that never comes, so
  a finalised round is in view 0. A quorum is the least number above two thirds, so `n - (n - 1) / 3` of n
  validators that prepare and commit finalise a started round, and fewer do not. A finalised round keeps its certificate through a step of the engine
  exactly when the step is none of three named ones.
* Package votes. A package verified at one node and rejected at another needs a validator that told them
  different things; a further vote keeps a decision exactly when it withdraws nothing that the decision hangs on; a package is
  rejected exactly when no continuation can verify it. The batch aggregation computes the verdict of "last vote per
  key, grouped by profile", and agrees with the incremental accumulator. Exactly the votes without a degraded
  scanner or a blank id or digest count, in both.
* Canonical JSON. A reader recovers the value from the text, so two values print alike exactly when they are
  equal up to the order of object entries at every depth. The text is the shortest that reads as its value,
  and the only one that short. It holds a raw control character exactly when
  a string or key holds one from U+0010 to U+001F, and printed keys stand in the standard's order exactly
  when no two of them clash where they first differ.
* Merkle roots. Lists of any lengths have one root exactly when they are the same with all padding written out,
  unless two different texts among those actually hashed have the same digest or an entry is itself two digests
  side by side, which no serialised transaction is. So lists of one length, and lists without repeats, are
  determined by their root. Every list whose length is no power of two shares its root with a longer one.
* Mirror. Applying a block twice equals applying it once exactly when a stated condition on its transactions
  holds for every package. The mirror is exact over all runs, with cursor updates lost, blocks missing and
  applications failing anywhere, exactly when every block meets the condition where it stands. After a block
  each row says what the last publication, signature or revocation in it says, by its place in the block.
* Insurance. The books balance over every run, and the balance stays above the recorded coverage. It covers the
  policies in force after every run without payouts, and otherwise exactly under a condition on the payouts
  on record; a run is given that ends solvent on its books with half the coverage in force.

## Where the code and its description differ

* The printer's comment names RFC 8785. The code escapes by number only characters below U+0010 and writes U+0010 to
  U+001F raw, where section 3.2.2.2 of RFC 8785 wants them escaped, so the text is then no JSON
  (`JsonStandard.RawControlExactlyWhen`). It sorts keys by Unicode scalar value, where section 3.2.3 sorts by UTF-16
  code units; the two differ exactly on keys that first differ in a character beyond U+FFFF and one from U+E000 to
  U+FFFF (`JsonStandard.OrdersAgreeExactlyWhen`). The text is unambiguous all the same.
* `apply_block` is described as idempotent. It is so exactly under the condition of
  `Mirror.ReplayExactlyWhenHarmless`; `Mirror.EarlyRevocationFails` and `Mirror.ChainedRotationsFail` give
  the blocks for which it is not.
* The pool's `total_coverage` is described as the coverage issued. A payout and a policy that takes the place of
  another are exactly the events that move it away from the coverage of the policies in force
  (`Insurance.GapKeptExactlyWhen`), so the solvency check can pass with too little behind the policies
  (`Insurance.SolventButNotCovered`).
* `trigger_view_change` is described as returning to PRE-PREPARE so that a new proposer can drive the round. The
  engine calls `pre_prepare` only in `start_round`, on a fresh round, so no run of the engine takes such a round any
  further (`EngineViews.OutForGood`).
* In `receive_commit` the branch that fails a round with a quorum of commits and too few approvals cannot be
  reached, because every stored commit is an approval; the model has no such branch.

## Model

| member | source | states |
|---|---|---|
| Gf256.Multiply | crates/cli/src/recovery.rs:131-145 | the shift-and-reduce loop computes the field product `Mul`, whose laws are the next rows |
| Gf256.Commute | crates/cli/src/recovery.rs:131-145 | the order of the factors does not matter, for all bytes |
| Gf256.Associate | crates/cli/src/recovery.rs:131-145 | the product is associative, for all bytes |
| Gf256.DistributeRight | crates/cli/src/recovery.rs:131-145 | the product distributes over exclusive or |
| Gf256.MulOne | crates/cli/src/recovery.rs:131-145 | one is neutral |
| Gf256.NoZeroDivisors | crates/cli/src/recovery.rs:131-145 | a product of nonzero bytes is not zero |
| Gf256.TimesX | crates/cli/src/recovery.rs:131-145 | times x is a shift, with x^8 coming back as 0x1B; with the ring laws this fixes every product |
| Gf256.Invert | crates/cli/src/recovery.rs:148-160 | the chain of squarings and products computes `Inv`, with zero mapped to zero |
| Gf256.Inverse | crates/cli/src/recovery.rs:148-160 | `Inv` of a nonzero byte is its multiplicative inverse |
| Shamir.EvalPoly | crates/cli/src/recovery.rs:163-171 | the loop over running powers computes the value of the polynomial as Horner's rule defines it |
| Shamir.LagrangeAt | crates/cli/src/recovery.rs:174-197 | the nested loops compute the Lagrange formula, with the skipped index and the divided products |
| Polynomials.Interpolation | crates/cli/src/recovery.rs:174-197 | through k different points the formula gives the value, everywhere, of every polynomial with at most k coefficients |
| Polynomials.Unique | crates/cli/src/recovery.rs:174-197 | k points with different x determine k coefficients |
| Shamir.Split | crates/cli/src/recovery.rs:35-85 | succeeds exactly when the trimmed key is hexadecimal, there are at most 255 guardians and the threshold is from 2 to their number, and says which fails; one share a guardian in order, with index 1, 2, ..., name, total, threshold and bytes for every choice of draws |
| Shamir.Reconstruct | crates/cli/src/recovery.rs:89-126 | succeeds exactly when there are as many shares as the first one's threshold, all are hexadecimal and those used are as long as the first, with the error for each failure and the panic on a short share; the secret interpolated at zero from the first `threshold` shares |
| Shamir.SplitIndices | crates/cli/src/recovery.rs:35-85 | the shares of one split have nonzero and pairwise different indices |
| Shamir.RoundTrip | crates/cli/src/recovery.rs:35-126 | any list of shares of one split, at least `threshold` long and with different indices among those used, gives the key back in lower case, for every key, draws, guardians and threshold |
| Shamir.RecoversExactlyWhenDistinct | crates/cli/src/recovery.rs:89-126 | a list of used indices recovers the constant term of every polynomial exactly when the indices differ |
| Shamir.ExactlyOnePolynomial | crates/cli/src/recovery.rs:55-70 | for values at fewer points than the threshold and any secret byte there is exactly one coefficient vector |
| Shamir.SharesHideSecret | crates/cli/src/recovery.rs:55-70 | for every other secret some draws give the same guardians, one fewer than the threshold, the very same bytes |
| Hex.DecodesExactlyWhen | crates/cli/src/recovery.rs:35-126 | exactly the texts of even length with hexadecimal digits only decode |
| Hex.DecodeEncode | crates/cli/src/recovery.rs:35-126 | decoding the hexadecimal text of bytes gives the bytes |
| Hex.EncodeDecode | crates/cli/src/recovery.rs:35-126 | text that decodes is given back in lower case |
| MessageOrderer.Orderer.constructor | crates/cross-chain/src/lib.rs:284-292 | the state that every run starts from |
| MessageOrderer.Orderer.NextOutboundSeq | crates/cross-chain/src/lib.rs:295-300 | numbers for one destination count up from zero and touch no other destination |
| OrdererRuns.OutboundNumbersCountUp | crates/cross-chain/src/lib.rs:295-300 | the number of a message is how many went to its destination before, and numbering touches nothing else |
| MessageOrderer.Orderer.Ingest | crates/cross-chain/src/lib.rs:307-344 | the new state and the messages set free are those of `AfterIngest`, in the known, late and accepted cases |
| MessageOrderer.Orderer.DrainFrom | crates/cross-chain/src/lib.rs:331-341 | the loop frees the buffered messages in sequence, remembers their ids in order and leaves the rest |
| MessageOrderer.Orderer.PruneDelivered | crates/cross-chain/src/lib.rs:357-367 | the new state is that of `AfterPrune` |
| MessageOrderer.DrainsOutSpec | crates/cross-chain/src/lib.rs:331-341 | what is freed is the longest gap-free run of buffered numbers from the expected one |
| MessageOrderer.LeavesSpec | crates/cross-chain/src/lib.rs:331-341 | exactly the freed places leave the buffer |
| OrdererRuns.InOrderDelivery | crates/cross-chain/src/lib.rs:307-367 | in every run, whatever the ids, the delivered messages of a source arrived and carry 0, 1, 2, ... without gap or repeat, and the next number expected is their count |
| OrdererRuns.AllDueDelivered | crates/cross-chain/src/lib.rs:307-367 | with one message a place and different ids among due messages, every run delivers the longest gap-free prefix of what arrived |
| OrdererRuns.Collision | crates/cross-chain/src/lib.rs:307-344 | for two due messages with one id there is an arrival order that holds one of them back |
| OrdererRuns.DeliveryExactlyWhenIdsDiffer | crates/cross-chain/src/lib.rs:307-367 | all runs with given arrivals deliver everything due exactly when no two due messages share an id |
| OrdererRuns.SameArrivalsSameDeliveries | crates/cross-chain/src/lib.rs:307-367 | runs with the same arrivals, in any order and with any prunes, deliver the same for every source |
| OrdererRuns.PrunesChangeNothing | crates/cross-chain/src/lib.rs:307-367 | when ids name their place, a run with prunes anywhere delivers what it delivers without them |
| OrdererRuns.PruneAfterRun | crates/cross-chain/src/lib.rs:357-367 | after any such run a prune keeps exactly the most recent ids |
| OrdererRuns.PruneAfterAnyRun | crates/cross-chain/src/lib.rs:357-367 | in no run, for no limit, does a prune reach the branch that clears the memory; it leaves the limit or all there were |
| OrdererRuns.MemoryIsOfTheLastDelivered | crates/cross-chain/src/lib.rs:307-367 | in every run the ids remembered are the last ones delivered, in the order of their delivery |
| Proposers.LowestIsLowest | crates/consensus/src/vrf.rs:114-126 | the entry chosen is in the list and no other has a lower score |
| Proposers.SelectionIgnoresOrderExactlyWhen | crates/consensus/src/vrf.rs:114-126 | the choice is the same for every listing of the validators exactly when all lowest-scored ones carry one id |
| Proposers.RankingIsCanonical | crates/consensus/src/vrf.rs:134-146 | the ranking lists every validator as often as it occurs, by score and then by id, the same for every listing |
| Proposers.HeadOfRankingIsSelected | crates/consensus/src/vrf.rs:114-146 | with different scores the first of the ranking is the proposer chosen, for every listing |
| Proposers.RankInvertsRanking | crates/consensus/src/vrf.rs:150-158 | with different ids rank and ranking are inverse, and exactly the unknown ids have no rank |
| Pbft.PbftRound.constructor | crates/consensus/src/pbft.rs:161-176 | the state that every round starts from |
| Pbft.PbftRound.DoPrePrepare | crates/consensus/src/pbft.rs:193-257 | new state and result as `AfterPrePrepare`: phase, membership, proposer and proof checks in the code's order |
| Pbft.PbftRound.ReceivePrepare | crates/consensus/src/pbft.rs:261-280 | new state and result as `AfterPrepare` |
| Pbft.PbftRound.ReceiveCommit | crates/consensus/src/pbft.rs:285-320 | new state and result as `AfterCommit` |
| Pbft.PbftRound.RecordViewChange | crates/consensus/src/pbft.rs:386-416 | new state and result as `AfterViewChange` |
| Pbft.PbftRound.TriggerViewChange | crates/consensus/src/pbft.rs:423-443 | new state and result as `AfterTrigger` |
| PbftRuns.NextKeeps | crates/consensus/src/pbft.rs:193-443 | every step keeps the invariant: stored signatures are verified ones of active validators, the phase matches the quorums held, the view equals the count of view changes and stays within the limit |
| PbftRuns.RunKeeps | crates/consensus/src/pbft.rs:193-443 | every run keeps it, and never changes the block, the validators or the configuration |
| PbftRuns.RoundChangesBounded | crates/consensus/src/pbft.rs:193-443 | under any interleaving of calls on the round itself it changes phase or view at most `4 * maxViewChanges + 4` times |
| PbftRuns.BoundIsAttained | crates/consensus/src/pbft.rs:193-443 | for every limit some sequence of calls on the round, proposing anew in every view, makes exactly that many changes |
| PbftSafety.QuorumArithmetic | crates/consensus/src/pbft.rs:457-463 | the quorum of n is the least number above two thirds, that is n - (n - 1) / 3, two in the opted-in cluster of three and none of none; two quorums share at least n/3 + 1, or one in that cluster |
| PbftSafety.FinalisedRoundsOverlap | crates/consensus/src/pbft.rs:261-362 | any two finalised rounds over the same active validators share that many holders of verified commits on both blocks |
| PbftSafety.Agreement | crates/consensus/src/pbft.rs:261-362 | with at most a third faulty and the others committing to one block only, both finalised rounds carry one block hash |
| PbftSafety.EnginesAgree | crates/consensus/src/pbft.rs:480-521 | under the same bound, rounds that two engines have finalised over the same active validators lie under one hash, whatever the two runs |
| PbftSafety.AcceptsExactlyTheFirstRanked | crates/consensus/src/pbft.rs:193-257 | with different scores a proposal is accepted exactly when the round waits for one, a proof in the header verifies, and it comes from the first of the ranking, however the validator map is walked |
| PbftSafety.FirstRankedHasLowestScore | crates/consensus/src/pbft.rs:224-246 | that is the active validator whose score, of its own key and the previous hash, is the lowest |
| PbftVotes.PassesExactlyWhenVerified | crates/consensus/src/pbft.rs:322-362 | a vote passes the checks exactly when it is the verified signature of an active validator |
| PbftVotes.PrepareMovesOnExactlyWhen | crates/consensus/src/pbft.rs:261-280 | an unverified prepare changes nothing; a verified one is stored and moves the round on, and is answered true, exactly when the different signers are more than two thirds |
| PbftVotes.CommitFinalisesExactlyWhen | crates/consensus/src/pbft.rs:285-320 | the same for commits and finality |
| PbftVotes.FinalisedExactlyWhenEnoughSign | crates/consensus/src/pbft.rs:261-320 | a started round that different validators prepare and then commit is finalised exactly when they are enough, under the strict quorum n - (n - 1) / 3 of n |
| PbftVotes.ViewChangesExactlyWhen | crates/consensus/src/pbft.rs:386-416 | certificates of different validators for the next view bring it about exactly when they are more than a third, and then once |
| PbftVotes.SweepsExactlyWhen | crates/consensus/src/pbft.rs:532-598 | a sweep touches exactly the rounds not done that have been in their phase for longer than the timeout; cleaning drops exactly the done ones older than the time to live |
| PbftVotes.ClockRestartsOnChange | crates/consensus/src/pbft.rs:193-443 | the clock of a phase restarts exactly when a phase or view that can time out is entered |
| PbftVotes.StartedRound | crates/consensus/src/pbft.rs:480-487 | a round that the engine starts is in PREPARE in its first view from this moment, with nothing signed, and its hash is the answer |
| PbftVotes.TriggerAnswers | crates/consensus/src/pbft.rs:423-443 | the answer is the new view, or the failure at the limit |
| PbftVotes.CertificateAnswers | crates/consensus/src/pbft.rs:386-416 | the answer is true exactly when the view changes, and false exactly when the certificates are not enough |
| PbftVotes.VoteRefusals | crates/consensus/src/pbft.rs:261-362 | which failure answers a vote out of phase, of another signer, of an unknown or inactive validator, under another key or with a bad signature |
| PbftVotes.ProposalRefusals | crates/consensus/src/pbft.rs:193-257 | which failure answers a proposal out of phase, from outside the active set or with a proof that fails |
| PbftVotes.EngineAnswers | crates/consensus/src/pbft.rs:489-577 | the engine answers as the round under the hash does, and that there is none where there is none |
| PbftVotes.SignedTextDetermines | crates/consensus/src/pbft.rs:32-35 | a signed text determines its phase and its hash |
| PbftVotes.KeysAgreeExactlyWhen | crates/consensus/src/pbft.rs:322-362 | two public keys are taken for the same exactly when, without leading "0x", they are the same up to case |
| PbftEngine.Engine.StartRound | crates/consensus/src/pbft.rs:480-487 | a new round object proposes and is stored under its hash; a refused proposal leaves all rounds alone; different hashes keep different objects |
| PbftEngine.Engine.DoPrepare | crates/consensus/src/pbft.rs:489-495 | the round object under the hash takes the prepare in place, and the view of all rounds changes at that hash only |
| PbftEngine.Engine.DoCommit | crates/consensus/src/pbft.rs:497-503 | the round object under the hash takes the commit in place, and the view of all rounds changes at that hash only |
| PbftEngine.Engine.ReceiveViewChange | crates/consensus/src/pbft.rs:566-577 | the round object under the hash takes the certificate in place, and the view of all rounds changes at that hash only |
| PbftEngine.Engine.TimeoutRounds | crates/consensus/src/pbft.rs:532-562 | exactly the timed-out rounds change view, and there is a signal for each that could, in whatever order the map is walked |
| PbftEngine.Engine.CleanupStaleRounds | crates/consensus/src/pbft.rs:582-598 | exactly the stale terminal rounds go, and their number is returned |
| PbftEngine.Engine.GetFinalisedBlock | crates/consensus/src/pbft.rs:512-521 | a block comes back exactly for a finalised round, with that round's commit signatures |
| EngineRuns.TakeAllKeeps | crates/consensus/src/pbft.rs:480-598 | every run of the engine keeps every round in order, under the hash of its own block and the engine's configuration |
| EngineRuns.FinalisedBlockIsCertified | crates/consensus/src/pbft.rs:505-521 | in every run a block handed out for a hash hashes to it and carries a quorum of verified commits of different active validators, after a quorum of verified prepares |
| EngineRuns.FinalityKeptExactlyWhen | crates/consensus/src/pbft.rs:480-598 | a finalised round keeps its certificate through a step exactly when that step does not propose its block anew, complete a view-change certificate for it, or expire it |
| EngineRuns.FinalityPersists | crates/consensus/src/pbft.rs:480-598 | so it keeps it through every run without such steps |
| EngineRuns.TimeoutsMakeProgress | crates/consensus/src/pbft.rs:532-562 | a sweep strictly lowers the measure of every timed-out round |
| EngineViews.FinalisedInFirstView | crates/consensus/src/pbft.rs:480-598 | in every run of the engine a round in a later view waits for a proposal or has failed, and a finalised round is in view 0 |
| EngineViews.ViewChangePutsOut | crates/consensus/src/pbft.rs:386-443 | every view change, by timeout or certificate, leaves a round waiting for a proposal or failed |
| EngineViews.OutForGood | crates/consensus/src/pbft.rs:423-443 | a round that has changed view or failed is never finalised again unless a new round takes its place |
| EngineViews.EngineRoundChangesBounded | crates/consensus/src/pbft.rs:480-598 | after the engine has started a round, into PREPARE, it changes at most `maxViewChanges + 3` times more until a new one takes its place |
| EngineViews.EngineBoundIsAttained | crates/consensus/src/pbft.rs:480-598 | for every limit a run of the engine makes exactly that many changes |
| VoteAccumulator.PackageVoteState.RecordPrepare | crates/consensus/src/vote_accumulator.rs:231-308 | the stored vote, the phase, and true exactly when the consensus-grade prepares first reach the quorum |
| VoteAccumulator.PackageVoteState.RecordCommit | crates/consensus/src/vote_accumulator.rs:317-416 | the stored vote, the phase and the outcome are those of `Decide` on all votes stored, with the approving signatures or the first reason; an overflow panics or decides nothing, as the build checks it or not; a bad signature changes nothing |
| Ballots.GradeExactlyWhenNotDefective | crates/common/src/package.rs:196-244 | exactly the votes without a degraded scanner version, a blank one of the seven ids or a blank digest are of consensus grade |
| VoteAccumulator.VoteCountsExactlyWhenSound | crates/consensus/src/vote_accumulator.rs:346-379 | a vote with such a defect counts nowhere, and one without counts on its own side and no other |
| VoteAccumulator.DefectiveVoteDecidesNothing | crates/consensus/src/vote_accumulator.rs:346-416 | a vote with such a defect decides what would be decided without any vote of its validator |
| VoteAccumulator.SoundVoteCountsOnce | crates/consensus/src/vote_accumulator.rs:346-379 | a vote without one, of a validator that has not voted, adds one to its side |
| VoteAccumulator.PrimaryReasonIsTheFirst | crates/consensus/src/vote_accumulator.rs:391-399 | the reason is that of the first vote walked that rejects with one |
| VoteAccumulator.VerifiedCarriesApprovals | crates/consensus/src/vote_accumulator.rs:418-440 | a verified package carries all its approvers' votes and only approving ones |
| VoteAccumulator.VotersBounded | crates/consensus/src/vote_accumulator.rs:346-416 | with voters from the assigned set the subtraction in the code never overflows |
| VoteAccumulator.ConflictNeedsEquivocation | crates/consensus/src/vote_accumulator.rs:317-416 | if one node verifies and another rejects, some validator cast a consensus-grade approval at one and a rejection at the other |
| VoteAccumulator.DecisionKeptExactlyWhenHarmless | crates/consensus/src/vote_accumulator.rs:317-416 | a further vote, also a second one of a validator, keeps a decision exactly when it does not withdraw an approval or rejection that the decision hangs on |
| VoteAccumulator.DecisionIsFinal | crates/consensus/src/vote_accumulator.rs:317-416 | with one commit a validator no further votes change a decision |
| VoteAccumulator.RejectedExactlyWhenHopeless | crates/consensus/src/vote_accumulator.rs:346-416 | a package is rejected exactly when no continuation that leaves the cast rejections standing verifies it |
| EvidenceVotes.Deduplicate | crates/consensus/src/evidence_votes.rs:30-45 | the list with the index map holds every key once, at the place of its first vote with the contents of its last |
| EvidenceVotes.UniqueVotesList | crates/consensus/src/evidence_votes.rs:30-45 | that list is, up to order, the map from every key to its last vote |
| EvidenceVotes.Tally | crates/consensus/src/evidence_votes.rs:47-78 | approvals of the first profile to reach the quorum, or the first reason when too many reject, or nothing |
| EvidenceVotes.AggregateEvidenceVotes | crates/consensus/src/evidence_votes.rs:25-78 | verified exactly when the last votes give some profile a quorum, with exactly a quorum of approvals of different keys and one profile; rejected exactly when none does and too few are left |
| EvidenceVotes.RejectedForTheFirst | crates/consensus/src/evidence_votes.rs:67-75 | the reason of a rejection is that of the first key, as the keys came up, whose last vote rejects |
| EvidenceVotes.SoundCounts | crates/consensus/src/evidence_votes.rs:47-65 | a vote without a defect counts for its own profile alone, or as a rejection |
| EvidenceVotes.DefectiveVoteDecidesNothing | crates/consensus/src/evidence_votes.rs:25-78 | what a vote with a defect says makes no difference to the kind of verdict |
| EvidenceVotes.KeysAgreeExactlyWhen | crates/consensus/src/evidence_votes.rs:33-45 | votes share a key exactly when their public keys are the same up to case, or both have none and their ids are |
| EvidenceVotes.ProfilesAgreeExactlyWhen | crates/consensus/src/evidence_votes.rs:10-23 | votes share a profile exactly when profile text and evidence digest are the same, for a digest that tells the texts apart |
| Ballots.ProfileTextExactlyWhen | crates/common/src/package.rs:212-227 | without bars in its parts a profile text is the same exactly when the version, all ids and the epoch are |
| Ballots.ProfileTextFormat | crates/common/src/package.rs:212-227 | the text in full, with its labels |
| Ballots.BlankEpochIsOff | crates/common/src/package.rs:185-192 | an epoch left blank is the same as the mark for none, and any other stands as it is |
| EvidenceVotes.OneProfileAtMost | crates/consensus/src/evidence_votes.rs:25-78 | with no more keys than assigned validators, one profile at most reaches the quorum |
| EvidenceVotes.OrderDoesNotMatter | crates/consensus/src/evidence_votes.rs:25-78 | with one vote a key, verdicts on the votes in two orders are of the same kind |
| EvidenceVotes.AgreesWithAccumulator | crates/consensus/src/evidence_votes.rs:25-78 | with ids and keys one to one, a verdict is the decision the accumulator reaches on the same ballots, and with one profile the two always agree |
| Json.ParseWrite | crates/common/src/chain_spec.rs:297-356 | a reader recovers every value from its compact text, whatever text follows that does not go on a number |
| Json.WriteInjective | crates/common/src/chain_spec.rs:297-356 | values with one text are equal |
| CanonicalJson.WriteString | crates/common/src/chain_spec.rs:335-356 | the loop appends the quoted and escaped text and nothing else |
| CanonicalJson.WriteValue | crates/common/src/chain_spec.rs:297-333 | the recursive writer appends the text of the canonical form, for every nested value |
| CanonicalJson.WriteEntries | crates/common/src/chain_spec.rs:317-330 | sorting the keys and looking each value up prints the entries of the canonical form |
| CanonicalJson.ToCanonicalJson | crates/common/src/chain_spec.rs:289-295 | the result is the printed text and nothing else |
| CanonicalJson.CanonExactlyWhenSame | crates/common/src/chain_spec.rs:297-333 | canonical forms agree exactly when the values have the same entries at every depth, in whatever order |
| CanonicalJson.PrintsAlikeExactlyWhenSame | crates/common/src/chain_spec.rs:289-356 | two values print alike exactly when they are equal up to the order of entries |
| CanonicalJson.PrintedTextReads | crates/common/src/chain_spec.rs:289-356 | reading the printed text gives the canonical form, which prints to the same text |
| JsonShortest.PrintedTextIsTheShortest | crates/common/src/chain_spec.rs:289-356 | any text that reads as the canonical form is the printed one or longer, which settles the escapes, the spacing and the digits |
| JsonStandard.RawControlExactlyWhen | crates/common/src/chain_spec.rs:335-356 | the printed text holds a character below U+0020 exactly when some string or key at any depth holds one from U+0010 to U+001F |
| JsonStandard.RawControlOccurs | crates/common/src/chain_spec.rs:335-356 | a value for which it does |
| JsonStandard.OrdersAgreeExactlyWhen | crates/common/src/chain_spec.rs:317-330 | the printer and the standard order two different keys alike exactly when, where they first differ, not one is beyond U+FFFF and the other from U+E000 to U+FFFF |
| JsonStandard.KeysInStandardOrderExactlyWhen | crates/common/src/chain_spec.rs:317-330 | the printed keys of an object are in the standard's order exactly when no two of them clash so |
| JsonStandard.KeysClash | crates/common/src/chain_spec.rs:317-330 | two keys that do |
| Merkle.MerkleRoot | crates/common/src/block.rs:120-146 | for every length the loop with padding ends with `Root` of the serialisations |
| Merkle.RootHashesTree | crates/common/src/block.rs:120-146 | the root is the hash of the binary tree over the padded list, the empty list included |
| Merkle.EqualRootsCollide | crates/common/src/block.rs:120-146 | different lists of one length with one root give two different texts, among those hashed, with one digest |
| Merkle.TreesEqualExactlyWhenFull | crates/common/src/block.rs:120-146 | two lists of any lengths have one tree exactly when they are the same with all padding written out |
| Merkle.RootsAgreeExactlyWhenFull | crates/common/src/block.rs:120-146 | without a collision among the texts hashed, and with no entry that is two digests side by side, lists of any lengths have one root exactly when they are the same with all padding written out |
| Merkle.ObjectsArePlain | crates/common/src/block.rs:120-146 | serialised objects are never two digests side by side |
| Merkle.RootDeterminesList | crates/common/src/block.rs:120-146 | of lists without repeats, whatever their lengths, the root then determines the list |
| Merkle.FullKeepsRoot | crates/common/src/block.rs:120-146 | writing the padding out goes on with the list, up to a power of two, and never changes the root |
| Merkle.LongerListWithRoot | crates/common/src/block.rs:120-146 | every list whose length is no power of two shares its root with a longer one |
| Merkle.DigestPairFails | crates/common/src/block.rs:120-146 | an entry that is two digests side by side has the root of the two entries digested |
| Merkle.CopyOfLastKeepsRoot | crates/common/src/block.rs:120-146 | a copy of the last entry does not change the root of an odd list of three or more |
| Mirror.ReplayExactlyWhenHarmless | crates/db-sync/src/lib.rs:51-199 | applying a block twice equals applying it once, on all tables, exactly when for every package present the key rotations settle, and no absent package is revoked before its first publication and not after |
| Mirror.KeysSettleWithoutChains | crates/db-sync/src/lib.rs:75-91 | rotations settle when none takes up a key that the block hands out |
| Mirror.KeySettlesExactlyWhen | crates/db-sync/src/lib.rs:75-91 | a key settles exactly when the block publishes the package, or no rotation takes up the key left behind, or the first that does starts a chain that leads back to it |
| Mirror.ChainedRotationsFail | crates/db-sync/src/lib.rs:75-91 | a chain of two rotations in the wrong order makes replay of the block differ |
| Mirror.EarlyRevocationFails | crates/db-sync/src/lib.rs:56-74 | a revocation before the first publication makes replay differ |
| Mirror.VotesReplay | crates/db-sync/src/lib.rs:161-199 | replaying ballots never changes the vote rows |
| MirrorRows.VoteRowSaysLast | crates/db-sync/src/lib.rs:161-199 | after a block the row of a validator has the signature, the time, and "approve" or "reject" with the reason, of its last signature in the block's publications of the package |
| MirrorRows.VoteRowKeepsFirstKey | crates/db-sync/src/lib.rs:161-199 | it keeps its public key, or has that of the first signature |
| MirrorRows.VoteRowUntouched | crates/db-sync/src/lib.rs:51-113 | a row without a signature in the block stays |
| MirrorRows.PackageRowSaysLast | crates/db-sync/src/lib.rs:115-159 | after a block a package has the contents of its last publication in it, that status or "revoked" where a revocation follows, and that key where no rotation does |
| MirrorRows.PackageRowSaysFirst | crates/db-sync/src/lib.rs:115-159 | a new package has the name, version and date of its first publication, and the access count as 32 bits signed |
| MirrorRows.PackageRowKept | crates/db-sync/src/lib.rs:51-159 | one that was there keeps those, its contents if not published and its reason if not revoked |
| MirrorRows.PackageRowSaysWhy | crates/db-sync/src/lib.rs:62-74 | the reason is that of the last revocation that found the package there |
| MirrorRows.PackageRowAbsent | crates/db-sync/src/lib.rs:51-113 | no package comes from anything but a publication |
| MirrorRows.HeaderRow | crates/db-sync/src/lib.rs:96-111 | the header is stored under the block's height unless there is one, and no other changes |
| MirrorRows.RotationMoves | crates/db-sync/src/lib.rs:75-91 | a rotation by a prefix without wildcards moves exactly the packages whose name starts so and that have the old key |
| SyncWorker.Database.ApplyTransaction | crates/db-sync/src/lib.rs:54-93 | each statement changes the rows as `After` says and no other row |
| SyncWorker.Database.UpsertPackage | crates/db-sync/src/lib.rs:115-159 | insertion sets all columns; conflict sets six of them and keeps the reason |
| SyncWorker.Database.UpsertVotes | crates/db-sync/src/lib.rs:161-199 | every signature is inserted or updates its row, which keeps its public key |
| SyncWorker.Database.ApplyBlock | crates/db-sync/src/lib.rs:51-113 | the transactions in order, then the header unless its height is there |
| SyncWorker.Database.DoTick | crates/db-sync/src/sync_worker.rs:273-319 | rows and cursor after a tick, for every outcome of every height |
| SyncWorker.TickStopsAtFailure | crates/db-sync/src/sync_worker.rs:273-319 | a tick that syncs k heights and fails at the next has applied those, and the next too if only its cursor update was lost; the cursor is at the last one synced |
| SyncWorker.RunKeepsStep | crates/db-sync/src/sync_worker.rs:273-319 | in every run with harmless blocks the rows are those of applying blocks 1 to k once each in order, k the cursor or the height after it |
| SyncWorker.CleanTickCatchesUp | crates/db-sync/src/sync_worker.rs:273-319 | after any run a tick without failures and with a block to fetch leaves exactly the ledger at the tip |
| SyncWorker.ExactExactlyWhenHarmless | crates/db-sync/src/sync_worker.rs:273-319 | after every run the next synced block leaves exactly the ledger, if and only if every block is harmless where it stands |
| SyncWorker.TameChainsStayInStep | crates/db-sync/src/sync_worker.rs:273-319 | that holds for all runs on chains whose blocks have no chained rotations and no revocation before a publication of its package |
| Identifiers.ParseUndoesPrintExactlyWhen | crates/cli/src/multisig.rs:112-121 | an id is recovered from its canonical text exactly when its ecosystem has no colon and its version no at sign |
| Identifiers.PrintUndoesParse | crates/cli/src/multisig.rs:112-121 | every text that parses is the canonical text of what it parses to |
| Identifiers.RefusedExactlyWhen | crates/cli/src/multisig.rs:112-121 | a text is refused exactly when it has no colon, or no at sign after the first one, each with its failure |
| Identifiers.ReadsBackExactlyWhenBarless | crates/consensus/src/vote_accumulator.rs:50-68 | splitting at the last bars recovers all fields of a vote message exactly when none after the package name has a bar |
| Identifiers.MessageDeterminesVote | crates/consensus/src/vote_accumulator.rs:50-68 | two such votes with one message are the same vote |
| Identifiers.CanonicalAddressSettles | crates/common/src/package.rs:57-64 | the canonical form of an address is its own canonical form |
| Identifiers.CanonicalAddressMeans | crates/common/src/package.rs:57-64 | a blank address stays blank; any other is "0x" and the address without surrounding space and one "0x", in lower case |
| Identifiers.PublishMessageDeterminesExactlyWhen | crates/common/src/package.rs:66-77 | equal messages of well-formed ids come from the same package, hash and address exactly when the hashes are of one length and so are the addresses |
| Identifiers.PublishMessageMoves | crates/common/src/package.rs:66-77 | without that, a character may move from the version into the hash |
| Insurance.InsurancePool.AddPolicy | crates/insurance/src/lib.rs:239-259 | accepted exactly when the ratio is at least one, division by zero included; the new state |
| Insurance.InsurancePool.ProcessClaim | crates/insurance/src/lib.rs:262-296 | the payout or the refusal; the new state |
| Insurance.InsurancePool.CleanupExpired | crates/insurance/src/lib.rs:332-350 | exactly the expired policies go, their coverage is subtracted and their number returned, in whatever order they are visited |
| Insurance.SolventExactlyWhen | crates/insurance/src/lib.rs:239-247 | a policy passes the check exactly when the coverage it leads to is neither negative nor above the balance, or both are negative and it is not below the balance |
| Insurance.KeptExactlyWhen | crates/insurance/src/lib.rs:332-350 | cleaning up keeps exactly the policies whose last moment has not passed, as they are |
| Insurance.ClaimsAreOnRecord | crates/insurance/src/lib.rs:262-296 | after every run all claims not refused are on record, in order, and nothing else |
| Insurance.RunStaysSolvent | crates/insurance/src/lib.rs:239-350 | every run with premiums, coverage and replenishments that are not negative keeps the balance at or above both the coverage and zero |
| Insurance.BooksBalance | crates/insurance/src/lib.rs:239-350 | after every run the balance, the recorded coverage and the coverage in force are what came in less what went out |
| Insurance.CoverageIsInForceExactlyWhen | crates/insurance/src/lib.rs:239-350 | after every run the recorded coverage is that of the policies in force exactly when the payouts in the claim history equal the coverage replaced |
| Insurance.GapKeptExactlyWhen | crates/insurance/src/lib.rs:239-350 | an event leaves the two as far apart as they were exactly when it is neither a claim paid nor a policy accepted over a held id with coverage |
| Insurance.CoveredExactlyWhen | crates/insurance/src/lib.rs:239-350 | a pool that covers its policies in force still does after an event exactly when it is neither a payout beyond the surplus nor a policy beyond the balance that the check lets through |
| Insurance.RunStaysCovered | crates/insurance/src/lib.rs:239-350 | after every run without payouts the balance covers the policies in force |
| Insurance.CoversInForceExactlyWhen | crates/insurance/src/lib.rs:239-350 | after every run it does so exactly when payouts on record less coverage replaced are within the surplus over the recorded coverage |
| Insurance.SolventButNotCovered | crates/insurance/src/lib.rs:239-350 | a run that ends with balance and recorded coverage 50 and coverage 100 in force |

## Left out

- SHA-256, Ed25519, the VRF and HMAC are parameters; nothing is proved about them. Theorems that need a property of a hash (its fixed length) say so.
- The variant of proposer selection that verifies VRF outputs, and the random shuffle that assigns validators to packages.
- The bookkeeping of the validator set (adding, removing, slashing, rewarding, hashing) and of the vote accumulator's map of packages (opening, expiring, removing): easy members. Only the active members of a set are modelled.
- Vote signature verification is a parameter of the accumulator, and so is whether the build checks arithmetic overflow; its expiry clock is not modelled.
- The in-place sort of a local vector when ranking proposers, and the sort of keys in the printer, are a sorting function on values.
- Clock readings are natural numbers given to each operation; a cleanup reads the clock once.
- Sequence numbers, heights and views are unbounded: the wrap of a 64-bit sequence number after 2^64 messages is not modelled, and views are bounded by the limit on view changes.
- JSON numbers are integers and text is a sequence of Unicode scalar values: floating-point numbers and the UTF-8 bytes are not modelled.
- Mirror rows leave out the columns created_at and updated_at. The unique constraint on block hashes is one of the reasons for which an application may fail.
- Connection handling, schema creation and publisher statistics of the mirror.
- Insurance amounts are reals: rounding is not modelled, nor are premium calculation, risk scoring and claim assessment.
- Key files, prompts and file output around key recovery; the session files of multi-signature publishing other than reading the package id.
- Command line, configuration, networking, storage, and the remaining crates.
