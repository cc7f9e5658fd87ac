/** The engine that drives concurrent rounds, one for each block hash. */
module PbftEngine {
  import opened Wrappers
  import opened Pbft

  type Rounds = map<string, Round>

  datatype Signal = Signal(blockHash: string, newView: nat)

  /** What `StartRound` would insert, if the proposer is accepted. */
  function Started(c: Crypto, config: Config, block: Block, vs: ValidatorSet, listing: seq<string>, now: nat)
    : (Round, Result<string, Failure>)
  {
    AfterPrePrepare(c, NewRound(block, vs, config, now), block.header.proposerId, listing, now)
  }

  function AfterStart(
    c: Crypto, config: Config, rounds: Rounds, block: Block, vs: ValidatorSet, listing: seq<string>, now: nat)
    : (Rounds, Result<string, Failure>)
  {
    var (r, result) := Started(c, config, block, vs, listing, now);
    if result.Ok? then (rounds[result.value := r], result) else (rounds, result)
  }

  /** Handing an event to the round of one hash. */
  function OnRound<T>(rounds: Rounds, hash: string, act: Round -> (Round, Result<T, Failure>))
    : (Rounds, Result<T, Failure>)
  {
    if hash !in rounds then (rounds, Err(NoRound))
    else
      var (r, result) := act(rounds[hash]);
      (rounds[hash := r], result)
  }

  function AfterEnginePrepare(c: Crypto, rounds: Rounds, hash: string, id: string, sig: BlockSignature, now: nat)
    : (Rounds, Result<bool, Failure>)
  {
    OnRound(rounds, hash, (r: Round) => AfterPrepare(c, r, id, sig, now))
  }

  function AfterEngineCommit(c: Crypto, rounds: Rounds, hash: string, id: string, sig: BlockSignature)
    : (Rounds, Result<bool, Failure>)
  {
    OnRound(rounds, hash, (r: Round) => AfterCommit(c, r, id, sig))
  }

  function AfterReceiveViewChange(rounds: Rounds, hash: string, id: string, newView: nat, now: nat)
    : (Rounds, Result<bool, Failure>)
  {
    OnRound(rounds, hash, (r: Round) => AfterViewChange(r, id, newView, now))
  }

  function TimedOutHashes(rounds: Rounds, now: nat): set<string> {
    set h | h in rounds && TimedOut(rounds[h], now)
  }

  /** The rounds with those of `hashes` made to change view. */
  function Triggered(rounds: Rounds, hashes: set<string>, now: nat): Rounds {
    map h | h in rounds :: if h in hashes then AfterTrigger(rounds[h], now).0 else rounds[h]
  }

  function AfterTimeouts(rounds: Rounds, now: nat): Rounds {
    Triggered(rounds, TimedOutHashes(rounds, now), now)
  }

  predicate Stale(r: Round, ttl: nat, now: nat) {
    IsTerminal(r) && now - r.createdAt > ttl
  }

  function StaleHashes(rounds: Rounds, ttl: nat, now: nat): set<string> {
    set h | h in rounds && Stale(rounds[h], ttl, now)
  }

  function AfterCleanup(rounds: Rounds, ttl: nat, now: nat): Rounds {
    rounds - StaleHashes(rounds, ttl, now)
  }

  /** The signals of the rounds that changed view, each once. */
  ghost predicate SignalsFor(signals: seq<Signal>, rounds: Rounds, hashes: set<string>, now: nat)
    requires hashes <= rounds.Keys
  {
    && (forall i, j :: 0 <= i < j < |signals| ==> signals[i].blockHash != signals[j].blockHash)
    && (forall s :: s in signals <==>
          s.blockHash in hashes && AfterTrigger(rounds[s.blockHash], now).1 == Ok(s.newView))
  }

  predicate IsStale(round: PbftRound, ttl: nat, now: nat)
    reads round
    ensures IsStale(round, ttl, now) == Stale(round.Abstract(), ttl, now)
  {
    round.IsTerminalPhase() && now - round.createdAt > ttl
  }

  class Engine {
    const crypto: Crypto
    const config: Config
    var rounds: map<string, PbftRound>

    /** Different hashes hold different rounds, all of them under the engine's own configuration. */
    ghost predicate Valid()
      reads this
    {
      && (forall h, h' :: h in rounds && h' in rounds && h != h' ==> rounds[h] != rounds[h'])
      && (forall h :: h in rounds ==> rounds[h].crypto == crypto && rounds[h].config == config)
    }

    ghost function Objects(): set<PbftRound>
      reads this
    {
      set h | h in rounds :: rounds[h]
    }

    /** What the rounds amount to. */
    ghost function View(): (v: Rounds)
      reads this, Objects()
      ensures v.Keys == rounds.Keys
    {
      map h | h in rounds :: rounds[h].Abstract()
    }

    constructor (crypto: Crypto, config: Config)
      ensures Valid() && rounds == map[] && this.crypto == crypto && this.config == config
    {
      this.crypto, this.config := crypto, config;
      rounds := map[];
    }

    method StartRound(block: Block, vs: ValidatorSet, listing: seq<string>, now: nat)
      returns (result: Result<string, Failure>)
      requires Valid()
      modifies this
      ensures Valid() && fresh(Objects() - old(Objects()))
      ensures (View(), result) == AfterStart(crypto, config, old(View()), block, vs, listing, now)
    {
      hide PrePrepareFailure, PbftRound.Abstract, View;
      var hash := crypto.headerHash(block.header);
      var round := new PbftRound(crypto, block, vs, config, now);
      result := round.DoPrePrepare(block.header.proposerId, listing, now);
      if result.Err? { return; }
      InsertRound(hash, round);
      result := Ok(hash);
    }

    method InsertRound(hash: string, round: PbftRound)
      requires Valid() && round !in Objects() && round.crypto == crypto && round.config == config
      modifies this`rounds
      ensures Valid() && Objects() <= old(Objects()) + {round}
      ensures View() == old(View())[hash := old(round.Abstract())]
    {
      hide PbftRound.Abstract;
      rounds := rounds[hash := round];
    }

    method DoPrepare(hash: string, id: string, sig: BlockSignature, now: nat) returns (result: Result<bool, Failure>)
      requires Valid()
      modifies if hash in rounds then {rounds[hash]} else {}
      ensures Valid() && rounds == old(rounds)
      ensures (View(), result) == AfterEnginePrepare(crypto, old(View()), hash, id, sig, now)
    {
      hide AfterPrepare, PbftRound.Abstract;
      if hash !in rounds { return Err(NoRound); }
      result := rounds[hash].ReceivePrepare(id, sig, now);
      assert View() == old(View())[hash := rounds[hash].Abstract()];
    }

    method DoCommit(hash: string, id: string, sig: BlockSignature) returns (result: Result<bool, Failure>)
      requires Valid()
      modifies if hash in rounds then {rounds[hash]} else {}
      ensures Valid() && rounds == old(rounds)
      ensures (View(), result) == AfterEngineCommit(crypto, old(View()), hash, id, sig)
    {
      hide AfterCommit, PbftRound.Abstract;
      if hash !in rounds { return Err(NoRound); }
      result := rounds[hash].ReceiveCommit(id, sig);
      assert View() == old(View())[hash := rounds[hash].Abstract()];
    }

    method ReceiveViewChange(hash: string, id: string, newView: nat, now: nat) returns (result: Result<bool, Failure>)
      requires Valid()
      modifies if hash in rounds then {rounds[hash]} else {}
      ensures Valid() && rounds == old(rounds)
      ensures (View(), result) == AfterReceiveViewChange(old(View()), hash, id, newView, now)
    {
      hide AfterViewChange, PbftRound.Abstract;
      if hash !in rounds { return Err(NoRound); }
      result := rounds[hash].RecordViewChange(id, newView, now);
      assert View() == old(View())[hash := rounds[hash].Abstract()];
    }

    /** The hashes of the rounds whose phase has timed out. */
    method ListTimedOut(now: nat) returns (hashes: set<string>)
      ensures hashes == TimedOutHashes(View(), now)
    {
      hide TimedOut, PbftRound.Abstract;
      hashes := set h | h in rounds && rounds[h].IsPhaseTimedOut(now);
    }

    method TriggerRound(hash: string, now: nat) returns (result: Result<nat, Failure>)
      requires Valid() && hash in rounds
      modifies rounds[hash]
      ensures Valid() && rounds == old(rounds)
      ensures hash in old(View())
      ensures var (r, changed) := AfterTrigger(old(View())[hash], now);
              View() == old(View())[hash := r] && result == changed
    {
      hide AfterTrigger, PbftRound.Abstract;
      result := rounds[hash].TriggerViewChange(now);
      assert View() == old(View())[hash := rounds[hash].Abstract()];
    }

    /** Changes the view of every round whose phase has timed out, in the order the map is walked. */
    method TimeoutRounds(now: nat) returns (signals: seq<Signal>)
      requires Valid()
      modifies Objects()
      ensures Valid() && rounds == old(rounds)
      ensures View() == AfterTimeouts(old(View()), now)
      ensures SignalsFor(signals, old(View()), TimedOutHashes(old(View()), now), now)
    {
      hide AfterTrigger, SignalsFor, TimedOutHashes, Triggered, View;
      ghost var (before, done) := (View(), {});
      var timedOut := ListTimedOut(now);
      var todo := timedOut;
      signals := [];
      assert timedOut - todo == done;
      NoSignals(before, now);
      NoneTriggered(before, now);
      while todo != {}
        invariant Valid() && rounds == old(rounds)
        invariant todo <= timedOut && done == timedOut - todo
        invariant View() == Triggered(before, done, now)
        invariant SignalsFor(signals, before, done, now)
        decreases |todo|
      {
        var hash :| hash in todo;
        ghost var sent := signals;
        TriggeredStep(before, done, hash, now);
        OneMore(timedOut, todo, hash);
        var changed := TriggerRound(hash, now);
        if changed.Ok? {
          signals := signals + [Signal(hash, changed.value)];
        }
        SignalsGrow(sent, before, done, now, hash, signals);
        todo := todo - {hash};
        done := done + {hash};
      }
      assert done == timedOut;
    }

    /** The hashes of the terminal rounds older than the time to live. */
    method ListStale(now: nat) returns (hashes: set<string>)
      ensures hashes == StaleHashes(View(), config.staleTtl, now)
    {
      hide PbftRound.Abstract, IsStale, Stale;
      hashes := set h | h in rounds && IsStale(rounds[h], config.staleTtl, now);
    }

    /** Drops the stale rounds, one after the other. */
    method CleanupStaleRounds(now: nat) returns (count: nat)
      requires Valid()
      modifies this
      ensures Valid() && Objects() <= old(Objects())
      ensures View() == AfterCleanup(old(View()), config.staleTtl, now)
      ensures count == |old(rounds)| - |rounds|
    {
      hide View, StaleHashes;
      var stale := ListStale(now);
      StaleAreThere(View(), config.staleTtl, now);
      DroppedSize(rounds, stale);
      DropRounds(stale);
      return |stale|;
    }

    method DropRounds(hashes: set<string>)
      requires Valid()
      modifies this`rounds
      ensures Valid() && Objects() <= old(Objects())
      ensures rounds == old(rounds) - hashes && View() == old(View()) - hashes
    {
      hide PbftRound.Abstract;
      var todo := hashes;
      while todo != {}
        invariant todo <= hashes
        invariant rounds == old(rounds) - (hashes - todo)
        decreases |todo|
      {
        var hash :| hash in todo;
        rounds := rounds - {hash};
        todo := todo - {hash};
      }
      assert hashes - todo == hashes;
    }

    /** The block with its commit signatures, in some order; `signers` says whose they are. */
    method GetFinalisedBlock(hash: string) returns (block: Option<Block>, ghost signers: seq<string>)
      requires Valid()
      ensures block.Some? <==> hash in rounds && View()[hash].phase == Finalised
      ensures block.Some? ==> FinalisedBlock(View()[hash], block.value, signers)
    {
      block, signers := None, [];
      if hash !in rounds { return; }
      var round := rounds[hash];
      if round.phase != Finalised { return; }
      var todo, sigs := round.commitSigs.Keys, [];
      while todo != {}
        invariant todo <= round.commitSigs.Keys
        invariant ListsSome(sigs, signers, round.commitSigs, round.commitSigs.Keys - todo)
        decreases |todo|
      {
        var id :| id in todo;
        assert round.commitSigs.Keys - (todo - {id}) == (round.commitSigs.Keys - todo) + {id};
        sigs, signers, todo := sigs + [round.commitSigs[id]], signers + [id], todo - {id};
      }
      block := Some(round.block.(pbftSignatures := sigs));
    }
  }

  /** `block` is the round's block carrying every commit signature once, `signers` in their order. */
  ghost predicate FinalisedBlock(r: Round, block: Block, signers: seq<string>) {
    && block.header == r.block.header && block.transactions == r.block.transactions
    && ListsSome(block.pbftSignatures, signers, r.commitSigs, r.commitSigs.Keys)
  }

  ghost predicate ListsSome(
    sigs: seq<BlockSignature>, signers: seq<string>, all: map<string, BlockSignature>, ids: set<string>)
  {
    && |sigs| == |signers| == |ids|
    && (forall i, j :: 0 <= i < j < |signers| ==> signers[i] != signers[j])
    && (forall i :: 0 <= i < |signers| ==> signers[i] in ids && signers[i] in all && sigs[i] == all[signers[i]])
  }

  lemma StaleAreThere(rounds: Rounds, ttl: nat, now: nat)
    ensures StaleHashes(rounds, ttl, now) <= rounds.Keys
  {
  }

  lemma DroppedSize<T>(rounds: map<string, T>, stale: set<string>)
    requires stale <= rounds.Keys
    ensures |rounds - stale| == |rounds| - |stale|
  {
    assert (rounds - stale).Keys == rounds.Keys - stale;
    assert |rounds.Keys - stale| == |rounds.Keys| - |stale|;
  }

  lemma OneMore<T>(all: set<T>, todo: set<T>, x: T)
    requires x in todo && todo <= all
    ensures all - (todo - {x}) == (all - todo) + {x}
  {
  }

  lemma NoneTriggered(rounds: Rounds, now: nat)
    ensures Triggered(rounds, {}, now) == rounds
    ensures TimedOutHashes(rounds, now) <= rounds.Keys
  {
  }

  lemma TriggeredStep(rounds: Rounds, done: set<string>, hash: string, now: nat)
    requires hash in rounds && hash !in done
    ensures hash in Triggered(rounds, done, now) && Triggered(rounds, done, now)[hash] == rounds[hash]
    ensures Triggered(rounds, done, now)[hash := AfterTrigger(rounds[hash], now).0]
         == Triggered(rounds, done + {hash}, now)
  {
    hide AfterTrigger;
  }

  lemma NoSignals(rounds: Rounds, now: nat)
    ensures SignalsFor([], rounds, {}, now)
  {
  }

  lemma SignalsGrow(sent: seq<Signal>, rounds: Rounds, done: set<string>, now: nat, hash: string, signals: seq<Signal>)
    requires done <= rounds.Keys && hash in rounds && hash !in done
    requires SignalsFor(sent, rounds, done, now)
    requires signals == match AfterTrigger(rounds[hash], now).1
                        case Ok(view) => sent + [Signal(hash, view)]
                        case Err(_) => sent
    ensures SignalsFor(signals, rounds, done + {hash}, now)
  {
    hide AfterTrigger;
    assert forall i :: 0 <= i < |sent| ==> sent[i] in sent;
  }
}
