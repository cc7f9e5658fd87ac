/** The worker that keeps the mirror in step with the chain, under lost cursor updates, failed
    applications and missing blocks. */
module SyncWorker {
  import opened Wrappers
  import opened Mirror

  /** How the attempt at one height ends. A block is applied in a database transaction of its own, and
      the cursor is stored after it. */
  datatype Outcome = Synced | CursorLost | ApplyFailed | BlockMissing

  datatype State = State(rows: Rows, cursor: nat)

  /** The block at height h is chain[h - 1]. */
  type Chain = seq<Block>

  function Attempt(chain: Chain, s: State, o: Outcome): State
    requires s.cursor < |chain|
  {
    match o
    case Synced => State(AfterBlock(s.rows, chain[s.cursor]), s.cursor + 1)
    case CursorLost => s.(rows := AfterBlock(s.rows, chain[s.cursor]))
    case ApplyFailed => s
    case BlockMissing => s
  }

  /** One tick: heights from the cursor to the tip until an attempt fails. Outcomes may run out: then
      the process stops there. */
  function AfterTick(chain: Chain, s: State, tip: nat, outcomes: seq<Outcome>): State
    requires tip <= |chain|
    decreases |outcomes|
  {
    if tip <= s.cursor || outcomes == [] then s
    else
      var s' := Attempt(chain, s, outcomes[0]);
      if outcomes[0] == Synced then AfterTick(chain, s', tip, outcomes[1..]) else s'
  }

  datatype Tick = Tick(tip: nat, outcomes: seq<Outcome>)

  ghost predicate ValidTicks(chain: Chain, ticks: seq<Tick>) {
    forall i :: 0 <= i < |ticks| ==> ticks[i].tip <= |chain|
  }

  function Run(chain: Chain, s: State, ticks: seq<Tick>): State
    requires ValidTicks(chain, ticks)
    decreases |ticks|
  {
    if ticks == [] then s
    else
      var t := ticks[|ticks| - 1];
      AfterTick(chain, Run(chain, s, ticks[..|ticks| - 1]), t.tip, t.outcomes)
  }

  // ----- the code

  class Database {
    var rows: Rows
    var cursor: nat

    ghost function Abstract(): State
      reads this
    {
      State(rows, cursor)
    }

    constructor ()
      ensures Abstract() == State(Rows(map[], map[], map[]), 0)
    {
      rows := Rows(map[], map[], map[]);
      cursor := 0;
    }

    method UpsertPackage(r: Record)
      modifies this`rows
      ensures var before := old(rows).packages;
              rows == old(rows).(packages := before[r.canonical := Upserted(Lookup(before, r.canonical), r)])
    {
      var row := if r.canonical in rows.packages
        then rows.packages[r.canonical].(body := BodyOf(r), status := StatusText(r.status), pubkey := r.publisherPubkey)
        else Inserted(r);
      rows := rows.(packages := rows.packages[r.canonical := row]);
    }

    method UpsertVotes(canonical: string, sigs: seq<Signature>)
      modifies this`rows
      ensures rows == old(rows).(votes := VotesAfter(old(rows).votes, BallotsOf(canonical, sigs)))
    {
      hide LatestOf;
      ghost var ballots := BallotsOf(canonical, sigs);
      for i := 0 to |sigs|
        invariant rows == old(rows).(votes := VotesAfter(old(rows).votes, ballots[..i]))
      {
        assert ballots[..i + 1][..i] == ballots[..i];
        var k := VoteKey(canonical, sigs[i].validatorId);
        var row := if k in rows.votes then rows.votes[k].(latest := LatestOf(sigs[i]))
          else VoteRow(sigs[i].validatorPubkey, LatestOf(sigs[i]));
        rows := rows.(votes := rows.votes[k := row]);
      }
      assert ballots[..|ballots|] == ballots;
    }

    method ApplyTransaction(tx: Transaction)
      modifies this`rows
      ensures rows == After(old(rows), tx)
    {
      hide Like, VotesAfter, Upserted, BallotsOf;
      match tx
      case Publish(r) =>
        UpsertPackage(r);
        UpsertVotes(r.canonical, r.signatures);
      case Revoke(c, reason) =>
        if c in rows.packages {
          rows := rows.(packages := rows.packages[c := rows.packages[c].(status := "revoked", reason := Some(reason))]);
        }
      case RotatePublisherKey(prefix, oldPubkey, newPubkey) =>
        rows := rows.(packages := map c | c in rows.packages ::
          if Like(c, prefix + "%") && rows.packages[c].pubkey == oldPubkey
          then rows.packages[c].(pubkey := newPubkey) else rows.packages[c]);
      case Other =>
    }

    method ApplyBlock(b: Block)
      modifies this`rows
      ensures rows == AfterBlock(old(rows), b)
    {
      hide After;
      for i := 0 to |b.transactions|
        invariant rows == AfterAll(old(rows), b.transactions[..i])
      {
        assert b.transactions[..i + 1][..i] == b.transactions[..i];
        ApplyTransaction(b.transactions[i]);
      }
      assert b.transactions[..|b.transactions|] == b.transactions;
      if b.height !in rows.blocks {
        rows := rows.(blocks := rows.blocks[b.height := b.header]);
      }
    }

    method DoTick(chain: Chain, tip: nat, outcomes: seq<Outcome>)
      requires tip <= |chain|
      modifies this
      ensures Abstract() == AfterTick(chain, old(Abstract()), tip, outcomes)
    {
      hide AfterBlock;
      if tip <= cursor { return; }
      var i := 0;
      while cursor < tip && i < |outcomes|
        invariant i <= |outcomes|
        invariant AfterTick(chain, Abstract(), tip, outcomes[i..]) == AfterTick(chain, old(Abstract()), tip, outcomes)
        decreases |outcomes| - i
      {
        assert outcomes[i..][1..] == outcomes[i + 1..];
        match outcomes[i]
        case BlockMissing => return;
        case ApplyFailed => return;
        case CursorLost =>
          ApplyBlock(chain[cursor]);
          return;
        case Synced =>
          ApplyBlock(chain[cursor]);
          cursor := cursor + 1;
          i := i + 1;
      }
    }
  }

  // ----- every run

  /** The rows after the first k blocks, each applied once and in order. */
  function Ledger(start: Rows, chain: Chain, k: nat): Rows
    requires k <= |chain|
  {
    if k == 0 then start else AfterBlock(Ledger(start, chain, k - 1), chain[k - 1])
  }

  ghost predicate HarmlessAt(start: Rows, chain: Chain, h: nat)
    requires h < |chain|
  {
    ReplayHarmless(Ledger(start, chain, h), chain[h])
  }

  ghost predicate AllHarmless(start: Rows, chain: Chain) {
    forall h :: 0 <= h < |chain| ==> HarmlessAt(start, chain, h)
  }

  /** The rows are those of the ledger at the cursor, or one block ahead of it. */
  ghost predicate InStep(start: Rows, chain: Chain, s: State) {
    && s.cursor <= |chain|
    && (s.rows == Ledger(start, chain, s.cursor)
        || (s.cursor < |chain| && s.rows == Ledger(start, chain, s.cursor + 1)))
  }

  lemma AttemptKeepsStep(start: Rows, chain: Chain, s: State, o: Outcome)
    requires AllHarmless(start, chain) && InStep(start, chain, s) && s.cursor < |chain|
    ensures InStep(start, chain, Attempt(chain, s, o))
    ensures o == Synced ==> Attempt(chain, s, o) == State(Ledger(start, chain, s.cursor + 1), s.cursor + 1)
  {
    hide AfterBlock, ReplayHarmless;
    assert HarmlessAt(start, chain, s.cursor);
    ReplayExactlyWhenHarmless(Ledger(start, chain, s.cursor), chain[s.cursor]);
  }

  lemma {:induction false} TickKeepsStep(start: Rows, chain: Chain, s: State, tip: nat, outcomes: seq<Outcome>)
    requires AllHarmless(start, chain) && InStep(start, chain, s) && tip <= |chain|
    ensures InStep(start, chain, AfterTick(chain, s, tip, outcomes))
    decreases |outcomes|
  {
    hide AllHarmless, InStep, Attempt, Ledger;
    if s.cursor < tip && outcomes != [] {
      AttemptKeepsStep(start, chain, s, outcomes[0]);
      if outcomes[0] == Synced {
        TickKeepsStep(start, chain, Attempt(chain, s, outcomes[0]), tip, outcomes[1..]);
      }
    }
  }

  /** In every run the rows are the ledger at the cursor, or at the height after it. */
  lemma {:induction false} RunKeepsStep(start: Rows, chain: Chain, ticks: seq<Tick>)
    requires AllHarmless(start, chain) && ValidTicks(chain, ticks)
    ensures InStep(start, chain, Run(chain, State(start, 0), ticks))
    decreases |ticks|
  {
    hide AllHarmless, AfterTick;
    if ticks != [] {
      var n := |ticks| - 1;
      RunKeepsStep(start, chain, ticks[..n]);
      TickKeepsStep(start, chain, Run(chain, State(start, 0), ticks[..n]), ticks[n].tip, ticks[n].outcomes);
    }
  }

  function AllSynced(n: nat): seq<Outcome> { seq(n, _ => Synced) }

  lemma {:induction false} CleanTick(start: Rows, chain: Chain, s: State, tip: nat)
    requires s.cursor <= tip <= |chain|
    requires s.rows == Ledger(start, chain, s.cursor)
    ensures AfterTick(chain, s, tip, AllSynced(tip - s.cursor)) == State(Ledger(start, chain, tip), tip)
    decreases tip - s.cursor
  {
    hide AfterBlock;
    if s.cursor < tip {
      assert AllSynced(tip - s.cursor)[1..] == AllSynced(tip - s.cursor - 1);
      CleanTick(start, chain, Attempt(chain, s, Synced), tip);
    }
  }

  /** Whatever failed before, a tick without failures and with a block to fetch leaves exactly the ledger
      at the tip. */
  lemma CleanTickCatchesUp(start: Rows, chain: Chain, ticks: seq<Tick>, tip: nat)
    requires AllHarmless(start, chain) && ValidTicks(chain, ticks)
    requires Run(chain, State(start, 0), ticks).cursor < tip <= |chain|
    ensures var s := Run(chain, State(start, 0), ticks);
            AfterTick(chain, s, tip, AllSynced(tip - s.cursor)) == State(Ledger(start, chain, tip), tip)
  {
    hide AfterBlock, AllHarmless, InStep, Run;
    var s := Run(chain, State(start, 0), ticks);
    RunKeepsStep(start, chain, ticks);
    AttemptKeepsStep(start, chain, s, Synced);
    assert AllSynced(tip - s.cursor)[1..] == AllSynced(tip - s.cursor - 1);
    CleanTick(start, chain, Attempt(chain, s, Synced), tip);
  }

  /** After every run, syncing one more block leaves exactly the ledger. */
  ghost predicate AlwaysExact(start: Rows, chain: Chain) {
    forall ticks :: ValidTicks(chain, ticks) ==> ExactAfter(start, chain, ticks)
  }

  ghost predicate ExactAfter(start: Rows, chain: Chain, ticks: seq<Tick>)
    requires ValidTicks(chain, ticks)
  {
    var s := Run(chain, State(start, 0), ticks);
    s.cursor < |chain| ==> Attempt(chain, s, Synced).rows == Ledger(start, chain, s.cursor + 1)
  }

  /** A run that loses one cursor update. */
  function LostAt(h: nat): seq<Tick> { [Tick(h, AllSynced(h)), Tick(h + 1, [CursorLost])] }

  lemma LostAtRun(start: Rows, chain: Chain, h: nat)
    requires h < |chain|
    ensures ValidTicks(chain, LostAt(h))
    ensures Run(chain, State(start, 0), LostAt(h)) == State(Ledger(start, chain, h + 1), h)
  {
    hide AfterBlock;
    var ticks := LostAt(h);
    var init := State(start, 0);
    assert ValidTicks(chain, ticks[..1]);
    assert ticks[..1][..0] == [];
    assert Run(chain, init, ticks[..1]) == AfterTick(chain, init, h, AllSynced(h));
    CleanTick(start, chain, init, h);
  }

  /** The mirror stays exact over all runs exactly when every block is harmless where it stands. */
  lemma ExactExactlyWhenHarmless(start: Rows, chain: Chain)
    ensures AlwaysExact(start, chain) <==> AllHarmless(start, chain)
  {
    hide AfterBlock, Run, LostAt, ReplayHarmless;
    if AllHarmless(start, chain) {
      forall ticks | ValidTicks(chain, ticks) ensures ExactAfter(start, chain, ticks) {
        RunKeepsStep(start, chain, ticks);
        var s := Run(chain, State(start, 0), ticks);
        if s.cursor < |chain| { AttemptKeepsStep(start, chain, s, Synced); }
      }
    }
    if AlwaysExact(start, chain) {
      forall h | 0 <= h < |chain| ensures HarmlessAt(start, chain, h) {
        LostAtRun(start, chain, h);
        assert ExactAfter(start, chain, LostAt(h));
        ReplayExactlyWhenHarmless(Ledger(start, chain, h), chain[h]);
      }
    }
  }

  /** Blocks whose rotations do not chain, and that revoke no package before its first publication. */
  predicate Tame(b: Block) {
    var txs := b.transactions;
    NoChains(txs) && forall i, j :: 0 <= i < j < |txs| ==> !RevokeThenPublish(txs[i], txs[j])
  }

  predicate RevokeThenPublish(tx: Transaction, tx': Transaction) {
    tx.Revoke? && tx'.Publish? && tx.canonical == tx'.record.canonical
  }

  /** Tame blocks are harmless everywhere. */
  lemma TameIsHarmless(rows: Rows, b: Block)
    requires Tame(b)
    ensures ReplayHarmless(rows, b)
  {
    hide KeySettles, FirstPublish, NoChains;
    var txs := b.transactions;
    forall c ensures Harmless(rows, txs, c) {
      if c in rows.packages {
        KeysSettleWithoutChains(c, rows.packages[c].pubkey, txs);
      } else {
        var i := FirstPublish(c, txs);
        if i < |txs| {
          forall j | 0 <= j < i ensures !Revokes(c, txs[..i][j]) {
            assert !RevokeThenPublish(txs[j], txs[i]);
          }
        }
      }
    }
  }

  /** On a chain of tame blocks every run keeps the mirror in step. */
  lemma TameChainsStayInStep(start: Rows, chain: Chain, ticks: seq<Tick>)
    requires ValidTicks(chain, ticks) && forall b :: b in chain ==> Tame(b)
    ensures InStep(start, chain, Run(chain, State(start, 0), ticks))
  {
    hide Run, InStep, Tame;
    forall h | 0 <= h < |chain| ensures HarmlessAt(start, chain, h) {
      TameIsHarmless(Ledger(start, chain, h), chain[h]);
    }
    RunKeepsStep(start, chain, ticks);
  }

  // ----- one tick in detail

  /** The rows after k blocks from a height on. */
  function Applied(rows: Rows, chain: Chain, from: nat, k: nat): Rows
    requires from + k <= |chain|
  {
    if k == 0 then rows else AfterBlock(Applied(rows, chain, from, k - 1), chain[from + k - 1])
  }

  lemma {:induction false} AppliedFirst(rows: Rows, chain: Chain, from: nat, k: nat)
    requires 0 < k && from + k <= |chain|
    ensures Applied(rows, chain, from, k) == Applied(AfterBlock(rows, chain[from]), chain, from + 1, k - 1)
  {
    hide AfterBlock;
    if k > 1 { AppliedFirst(rows, chain, from, k - 1); } else { assert Applied(rows, chain, from, 0) == rows; }
  }

  /** A tick that syncs k heights and fails at the next has applied those, and the next too if only its cursor
      update was lost; the cursor is at the last one synced, and nothing after the failure counts. */
  lemma {:induction false} TickStopsAtFailure(chain: Chain, s: State, tip: nat, k: nat, o: Outcome, rest: seq<Outcome>)
    requires s.cursor + k < tip <= |chain| && o != Synced
    ensures AfterTick(chain, s, tip, AllSynced(k) + [o] + rest)
         == State(Applied(s.rows, chain, s.cursor, if o == CursorLost then k + 1 else k), s.cursor + k)
    decreases k
  {
    hide AfterBlock, Applied;
    var os := AllSynced(k) + [o] + rest;
    AppliedNone(s.rows, chain, s.cursor);
    if k == 0 {
      assert os[0] == o;
      if o == CursorLost { AppliedFirst(s.rows, chain, s.cursor, 1); }
      AppliedNone(AfterBlock(s.rows, chain[s.cursor]), chain, s.cursor + 1);
    } else {
      assert os[0] == Synced && os[1..] == AllSynced(k - 1) + [o] + rest;
      TickStopsAtFailure(chain, Attempt(chain, s, Synced), tip, k - 1, o, rest);
      AppliedFirst(s.rows, chain, s.cursor, if o == CursorLost then k + 1 else k);
    }
  }

  lemma AppliedNone(rows: Rows, chain: Chain, from: nat)
    requires from <= |chain|
    ensures Applied(rows, chain, from, 0) == rows
  {
  }
}
