/** One round of three-phase block consensus: PRE-PREPARE, PREPARE, COMMIT, with view changes. */
module Pbft {
  import opened Wrappers
  import Proposers
  import Text

  // ----- validators and blocks

  datatype Validator = Validator(id: string, pubkey: string, isActive: bool)

  type ValidatorSet = vs: map<string, Validator> | forall id :: id in vs ==> vs[id].id == id witness map[]

  function Active(vs: ValidatorSet): set<string> { set id | id in vs && vs[id].isActive }

  predicate IsMember(vs: ValidatorSet, id: string) { id in vs && vs[id].isActive }

  datatype BlockSignature = BlockSignature(validatorId: string, pubkey: string, signature: string)

  datatype Header = Header(
    height: nat,
    prevHash: string,
    merkleRoot: string,
    proposerId: string,
    timestamp: string,
    validatorSetHash: string,
    vrfOutput: Option<string>,
    vrfProof: Option<string>)

  datatype Block = Block(header: Header, transactions: seq<string>, pbftSignatures: seq<BlockSignature>)

  /** The cryptography, as functions: the digest of a serialised header, Ed25519 verification of a
      message under a key, verification of a proposer's VRF proof, and the proposer score. */
  datatype Crypto = Crypto(
    headerHash: Header -> string,
    verifies: (string, string, string) -> bool,
    vrfVerifies: (string, string, string, string) -> bool,
    score: Proposers.Score)

  datatype Config = Config(
    phaseTimeout: nat,
    maxViewChanges: nat,
    staleTtl: nat,
    allowSmallClusterQuorum: bool)

  // ----- the round

  datatype Phase = PrePrepare | Prepare | Commit | Finalised | Failed

  datatype Failure =
    | WrongPhase
    | NotMember
    | VrfInvalid
    | NoValidators
    | NotSelected
    | SignerMismatch
    | UnknownValidator
    | InactiveValidator
    | PubkeyMismatch
    | BadSignature
    | ViewChangesExhausted
    | NoRound

  datatype Round = Round(
    block: Block,
    phase: Phase,
    prepareSigs: map<string, BlockSignature>,
    commitSigs: map<string, BlockSignature>,
    validators: ValidatorSet,
    phaseEnteredAt: nat,
    viewNumber: nat,
    viewChangeCount: nat,
    createdAt: nat,
    config: Config,
    viewChangeVotes: map<nat, set<string>>)

  function NewRound(block: Block, vs: ValidatorSet, config: Config, now: nat): Round {
    Round(block, PrePrepare, map[], map[], vs, now, 0, 0, now, config, map[])
  }

  function QuorumThreshold(n: nat, allowSmall: bool): nat {
    if n == 0 then 0
    else if n == 3 && allowSmall then 2
    else 2 * n / 3 + 1
  }

  function Quorum(r: Round): nat {
    QuorumThreshold(|Active(r.validators)|, r.config.allowSmallClusterQuorum)
  }

  /** A key with every leading "0x" taken off, in lower case. */
  function NormalKey(key: string): string { Text.Lower(StripPrefix(key)) }

  function StripPrefix(key: string): string {
    if |key| >= 2 && key[..2] == "0x" then StripPrefix(key[2..]) else key
  }

  function SignedMessage(phase: string, blockHash: string): string {
    "creg-pbft-v1:" + phase + ":" + blockHash
  }

  function SignatureFailure(c: Crypto, r: Round, phase: string, id: string, sig: BlockSignature): Option<Failure> {
    if sig.validatorId != id then Some(SignerMismatch)
    else if id !in r.validators then Some(UnknownValidator)
    else if !r.validators[id].isActive then Some(InactiveValidator)
    else if NormalKey(sig.pubkey) != NormalKey(r.validators[id].pubkey) then Some(PubkeyMismatch)
    else if !c.verifies(
              SignedMessage(phase, c.headerHash(r.block.header)), NormalKey(r.validators[id].pubkey), sig.signature)
    then Some(BadSignature)
    else None
  }

  /** The validators as the proposer selection sees them, in the order the map hands them out. */
  function Candidates(vs: ValidatorSet, listing: seq<string>): seq<Proposers.Candidate> {
    seq(|listing|, i requires 0 <= i < |listing| =>
      Proposers.Candidate(listing[i], if listing[i] in vs then vs[listing[i]].pubkey else ""))
  }

  function PrePrepareFailure(c: Crypto, r: Round, proposer: string, listing: seq<string>): (f: Option<Failure>)
    ensures f.None? ==> r.phase == PrePrepare && IsMember(r.validators, proposer)
  {
    var header := r.block.header;
    if r.phase != PrePrepare then Some(WrongPhase)
    else if !IsMember(r.validators, proposer) then Some(NotMember)
    else if header.vrfProof.Some? && header.vrfOutput.Some?
            && !c.vrfVerifies(
                 header.prevHash, r.validators[proposer].pubkey, header.vrfOutput.value, header.vrfProof.value)
    then Some(VrfInvalid)
    else
      match Proposers.Selected(Candidates(r.validators, listing), header.prevHash, c.score)
      case None => Some(NoValidators)
      case Some(selected) => if selected != proposer then Some(NotSelected) else None
  }

  function AfterPrePrepare(c: Crypto, r: Round, proposer: string, listing: seq<string>, now: nat)
    : (Round, Result<string, Failure>)
  {
    match PrePrepareFailure(c, r, proposer, listing)
    case Some(e) => (r, Err(e))
    case None => (r.(phase := Prepare, phaseEnteredAt := now), Ok(c.headerHash(r.block.header)))
  }

  function AfterPrepare(c: Crypto, r: Round, id: string, sig: BlockSignature, now: nat)
    : (Round, Result<bool, Failure>)
  {
    if r.phase != Prepare then (r, Err(WrongPhase))
    else
      match SignatureFailure(c, r, "prepare", id, sig)
      case Some(e) => (r, Err(e))
      case None =>
        var r' := r.(prepareSigs := r.prepareSigs[id := sig]);
        if |r'.prepareSigs| >= Quorum(r) then (r'.(phase := Commit, phaseEnteredAt := now), Ok(true))
        else (r', Ok(false))
  }

  function AfterCommit(c: Crypto, r: Round, id: string, sig: BlockSignature): (Round, Result<bool, Failure>) {
    if r.phase != Commit then (r, Err(WrongPhase))
    else
      match SignatureFailure(c, r, "commit", id, sig)
      case Some(e) => (r, Err(e))
      case None =>
        var r' := r.(commitSigs := r.commitSigs[id := sig]);
        if |r'.commitSigs| >= Quorum(r) then (r'.(phase := Finalised), Ok(true))
        else (r', Ok(false))
  }

  function AfterTrigger(r: Round, now: nat): (Round, Result<nat, Failure>) {
    if r.viewChangeCount >= r.config.maxViewChanges then (r.(phase := Failed), Err(ViewChangesExhausted))
    else (r.(viewChangeCount := r.viewChangeCount + 1, viewNumber := r.viewNumber + 1,
             prepareSigs := map[], commitSigs := map[], phase := PrePrepare, phaseEnteredAt := now),
          Ok(r.viewNumber + 1))
  }

  function VotesFor(r: Round, view: nat): set<string> {
    if view in r.viewChangeVotes then r.viewChangeVotes[view] else {}
  }

  /** A certificate makes the round change view: enough of them, for a view ahead. */
  predicate CertificateCarries(r: Round, id: string, newView: nat) {
    |VotesFor(r, newView) + {id}| >= |Active(r.validators)| / 3 + 1 && r.viewNumber < newView
  }

  function AfterViewChange(r: Round, id: string, newView: nat, now: nat): (Round, Result<bool, Failure>) {
    var r' := r.(viewChangeVotes := r.viewChangeVotes[newView := VotesFor(r, newView) + {id}]);
    if CertificateCarries(r, id, newView) then
      var (r'', result) := AfterTrigger(r', now);
      (r'', if result.Err? then Err(result.error) else Ok(true))
    else (r', Ok(false))
  }

  predicate IsTerminal(r: Round) { r.phase == Finalised || r.phase == Failed }

  predicate TimedOut(r: Round, now: nat) {
    !IsTerminal(r) && now - r.phaseEnteredAt > r.config.phaseTimeout
  }

  class PbftRound {
    const crypto: Crypto
    const block: Block
    const validators: ValidatorSet
    const createdAt: nat
    const config: Config
    var phase: Phase
    var prepareSigs: map<string, BlockSignature>
    var commitSigs: map<string, BlockSignature>
    var phaseEnteredAt: nat
    var viewNumber: nat
    var viewChangeCount: nat
    var viewChangeVotes: map<nat, set<string>>

    ghost function Abstract(): Round
      reads this
    {
      Round(block, phase, prepareSigs, commitSigs, validators, phaseEnteredAt,
            viewNumber, viewChangeCount, createdAt, config, viewChangeVotes)
    }

    constructor (crypto: Crypto, block: Block, validators: ValidatorSet, config: Config, now: nat)
      ensures Abstract() == NewRound(block, validators, config, now)
      ensures this.crypto == crypto && this.config == config
    {
      this.crypto, this.block, this.validators, this.config := crypto, block, validators, config;
      phase := PrePrepare;
      prepareSigs, commitSigs, viewChangeVotes := map[], map[], map[];
      phaseEnteredAt, createdAt := now, now;
      viewNumber, viewChangeCount := 0, 0;
    }

    predicate IsTerminalPhase()
      reads this
      ensures IsTerminalPhase() == IsTerminal(Abstract())
    {
      phase == Finalised || phase == Failed
    }

    predicate IsPhaseTimedOut(now: nat)
      reads this
      ensures IsPhaseTimedOut(now) == TimedOut(Abstract(), now)
    {
      match phase
      case Finalised => false
      case Failed => false
      case _ => now - phaseEnteredAt > config.phaseTimeout
    }

    function QuorumSize(): (q: nat)
      reads this
      ensures q == Quorum(Abstract())
    {
      QuorumThreshold(|Active(validators)|, config.allowSmallClusterQuorum)
    }

    method DoPrePrepare(proposer: string, listing: seq<string>, now: nat) returns (result: Result<string, Failure>)
      modifies this
      ensures (Abstract(), result) == AfterPrePrepare(crypto, old(Abstract()), proposer, listing, now)
    {
      if phase != PrePrepare { return Err(WrongPhase); }
      if !IsMember(validators, proposer) { return Err(NotMember); }
      var header := block.header;
      if header.vrfProof.Some? && header.vrfOutput.Some? {
        var pubkey := validators[proposer].pubkey;
        if !crypto.vrfVerifies(header.prevHash, pubkey, header.vrfOutput.value, header.vrfProof.value) {
          return Err(VrfInvalid);
        }
      }
      var selected := Proposers.Selected(Candidates(validators, listing), header.prevHash, crypto.score);
      if selected.None? { return Err(NoValidators); }
      if selected.value != proposer { return Err(NotSelected); }
      phase := Prepare;
      phaseEnteredAt := now;
      return Ok(crypto.headerHash(block.header));
    }

    function VerifyBlockSignature(phaseName: string, id: string, sig: BlockSignature): (e: Option<Failure>)
      reads this
      ensures e == SignatureFailure(crypto, Abstract(), phaseName, id, sig)
    {
      if sig.validatorId != id then Some(SignerMismatch)
      else if id !in validators then Some(UnknownValidator)
      else if !validators[id].isActive then Some(InactiveValidator)
      else
        var expected := NormalKey(validators[id].pubkey);
        if NormalKey(sig.pubkey) != expected then Some(PubkeyMismatch)
        else if !crypto.verifies(SignedMessage(phaseName, crypto.headerHash(block.header)), expected, sig.signature)
        then Some(BadSignature)
        else None
    }

    method ReceivePrepare(id: string, sig: BlockSignature, now: nat) returns (result: Result<bool, Failure>)
      modifies this
      ensures (Abstract(), result) == AfterPrepare(crypto, old(Abstract()), id, sig, now)
    {
      if phase != Prepare { return Err(WrongPhase); }
      var failure := VerifyBlockSignature("prepare", id, sig);
      if failure.Some? { return Err(failure.value); }
      prepareSigs := prepareSigs[id := sig];
      if |prepareSigs| >= QuorumSize() {
        phase := Commit;
        phaseEnteredAt := now;
        return Ok(true);
      }
      return Ok(false);
    }

    method ReceiveCommit(id: string, sig: BlockSignature) returns (result: Result<bool, Failure>)
      modifies this
      ensures (Abstract(), result) == AfterCommit(crypto, old(Abstract()), id, sig)
    {
      if phase != Commit { return Err(WrongPhase); }
      var failure := VerifyBlockSignature("commit", id, sig);
      if failure.Some? { return Err(failure.value); }
      commitSigs := commitSigs[id := sig];
      if |commitSigs| >= QuorumSize() {
        phase := Finalised;
        return Ok(true);
      }
      return Ok(false);
    }

    method TriggerViewChange(now: nat) returns (result: Result<nat, Failure>)
      modifies this
      ensures (Abstract(), result) == AfterTrigger(old(Abstract()), now)
    {
      if viewChangeCount >= config.maxViewChanges {
        phase := Failed;
        return Err(ViewChangesExhausted);
      }
      viewChangeCount := viewChangeCount + 1;
      viewNumber := viewNumber + 1;
      prepareSigs := map[];
      commitSigs := map[];
      phase := PrePrepare;
      phaseEnteredAt := now;
      return Ok(viewNumber);
    }

    method RecordViewChange(id: string, newView: nat, now: nat) returns (result: Result<bool, Failure>)
      modifies this
      ensures (Abstract(), result) == AfterViewChange(old(Abstract()), id, newView, now)
    {
      var threshold := |Active(validators)| / 3 + 1;
      var votes := if newView in viewChangeVotes then viewChangeVotes[newView] else {};
      votes := votes + {id};
      viewChangeVotes := viewChangeVotes[newView := votes];
      if |votes| >= threshold && viewNumber < newView {
        var changed := TriggerViewChange(now);
        if changed.Err? { return Err(changed.error); }
        return Ok(true);
      }
      return Ok(false);
    }
  }
}
