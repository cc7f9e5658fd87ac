/** The relational mirror of the chain: what applying a block does to the rows, and what applying it
    again does. Row timestamps (created_at, updated_at) are not modelled. */
module Mirror {
  import opened Wrappers

  // ----- blocks

  datatype Vote = Approve | Reject(reason: string)

  datatype Signature = Signature(
    validatorId: string, validatorPubkey: string, signature: string, vote: Vote, signedAt: int)

  datatype Status = Verified | Pending | Revoked

  datatype Record = Record(
    canonical: string, ecosystem: string, name: string, version: string,
    contentHash: string, ipfsCid: string, publisherPubkey: string, blockHash: string, publishedAt: int,
    signatures: seq<Signature>, status: Status, shielded: bool, findings: string,
    accessCount: nat, lastAccessed: Option<int>)

  datatype Transaction =
    | Publish(record: Record)
    | Revoke(canonical: string, reason: string)
    | RotatePublisherKey(prefix: string, oldPubkey: string, newPubkey: string)
    | Other

  datatype Header = Header(hash: string, prevHash: string, merkleRoot: string, proposerId: string, timestamp: int)

  datatype Block = Block(height: nat, header: Header, transactions: seq<Transaction>)

  // ----- rows

  /** Columns written when a row is inserted and never after. */
  datatype Origin = Origin(
    ecosystem: string, name: string, version: string, publishedAt: int, shielded: bool,
    accessCount: int, lastAccessed: Option<int>)

  /** Columns that every publication overwrites and nothing else touches. */
  datatype Body = Body(contentHash: string, ipfsCid: string, blockHash: string, findings: string)

  datatype Package = Package(origin: Origin, body: Body, status: string, pubkey: string, reason: Option<string>)

  datatype VoteKey = VoteKey(canonical: string, validatorId: string)

  datatype Latest = Latest(signature: string, vote: string, reason: Option<string>, signedAt: int)

  datatype VoteRow = VoteRow(validatorPubkey: string, latest: Latest)

  datatype Rows = Rows(packages: map<string, Package>, votes: map<VoteKey, VoteRow>, blocks: map<nat, Header>)

  // ----- the statements

  function AsI32(n: nat): int { (n + 0x8000_0000) % 0x1_0000_0000 - 0x8000_0000 }

  function StatusText(s: Status): string {
    match s case Verified => "verified" case Pending => "pending" case Revoked => "revoked"
  }

  function BodyOf(r: Record): Body { Body(r.contentHash, r.ipfsCid, r.blockHash, r.findings) }

  function Inserted(r: Record): Package {
    Package(
      Origin(r.ecosystem, r.name, r.version, r.publishedAt, r.shielded, AsI32(r.accessCount), r.lastAccessed),
      BodyOf(r), StatusText(r.status), r.publisherPubkey, None)
  }

  function Upserted(before: Option<Package>, r: Record): Package {
    match before
    case None => Inserted(r)
    case Some(p) => p.(body := BodyOf(r), status := StatusText(r.status), pubkey := r.publisherPubkey)
  }

  /** The pattern language of SQL: `%` any text, `_` any character, a backslash takes the next literally. */
  predicate Like(s: string, pattern: string)
    decreases |pattern|, |s|
  {
    if pattern == [] then s == []
    else if pattern[0] == '%' then Like(s, pattern[1..]) || (s != [] && Like(s[1..], pattern))
    else if pattern[0] == '_' then s != [] && Like(s[1..], pattern[1..])
    else if pattern[0] == '\\' && |pattern| > 1 then s != [] && s[0] == pattern[1] && Like(s[1..], pattern[2..])
    else s != [] && s[0] == pattern[0] && Like(s[1..], pattern[1..])
  }

  function Rekeyed(canonical: string, pubkey: string, tx: Transaction): string {
    if tx.RotatePublisherKey? && Like(canonical, tx.prefix + "%") && pubkey == tx.oldPubkey then tx.newPubkey
    else pubkey
  }

  function Lookup<K, V>(m: map<K, V>, k: K): Option<V> { if k in m then Some(m[k]) else None }

  function LatestOf(s: Signature): Latest {
    match s.vote
    case Approve => Latest(s.signature, "approve", None, s.signedAt)
    case Reject(reason) => Latest(s.signature, "reject", Some(reason), s.signedAt)
  }

  function UpsertedVote(before: Option<VoteRow>, s: Signature): VoteRow {
    match before
    case None => VoteRow(s.validatorPubkey, LatestOf(s))
    case Some(row) => row.(latest := LatestOf(s))
  }

  datatype Ballot = Ballot(key: VoteKey, signature: Signature)

  function BallotsOf(canonical: string, sigs: seq<Signature>): seq<Ballot> {
    seq(|sigs|, i requires 0 <= i < |sigs| => Ballot(VoteKey(canonical, sigs[i].validatorId), sigs[i]))
  }

  function VotesAfter(votes: map<VoteKey, VoteRow>, ballots: seq<Ballot>): map<VoteKey, VoteRow> {
    if ballots == [] then votes
    else
      var b := ballots[|ballots| - 1];
      var before := VotesAfter(votes, ballots[..|ballots| - 1]);
      before[b.key := UpsertedVote(Lookup(before, b.key), b.signature)]
  }

  function After(rows: Rows, tx: Transaction): Rows {
    match tx
    case Publish(r) =>
      rows.(packages := rows.packages[r.canonical := Upserted(Lookup(rows.packages, r.canonical), r)],
            votes := VotesAfter(rows.votes, BallotsOf(r.canonical, r.signatures)))
    case Revoke(c, reason) =>
      if c in rows.packages
      then rows.(packages := rows.packages[c := rows.packages[c].(status := "revoked", reason := Some(reason))])
      else rows
    case RotatePublisherKey(_, _, _) =>
      rows.(packages := map c | c in rows.packages ::
        rows.packages[c].(pubkey := Rekeyed(c, rows.packages[c].pubkey, tx)))
    case Other => rows
  }

  function AfterAll(rows: Rows, txs: seq<Transaction>): Rows {
    if txs == [] then rows else After(AfterAll(rows, txs[..|txs| - 1]), txs[|txs| - 1])
  }

  function WithHeader(rows: Rows, b: Block): Rows {
    if b.height in rows.blocks then rows else rows.(blocks := rows.blocks[b.height := b.header])
  }

  function AfterBlock(rows: Rows, b: Block): Rows { WithHeader(AfterAll(rows, b.transactions), b) }

  // ----- one package

  /** What a transaction does to the row of one package. */
  function Row(c: string, p: Option<Package>, tx: Transaction): Option<Package> {
    match tx
    case Publish(r) => if r.canonical == c then Some(Upserted(p, r)) else p
    case Revoke(c', reason) =>
      if c' == c && p.Some? then Some(p.value.(status := "revoked", reason := Some(reason))) else p
    case RotatePublisherKey(_, _, _) => if p.Some? then Some(p.value.(pubkey := Rekeyed(c, p.value.pubkey, tx))) else p
    case Other => p
  }

  function RowAll(c: string, p: Option<Package>, txs: seq<Transaction>): Option<Package> {
    if txs == [] then p else Row(c, RowAll(c, p, txs[..|txs| - 1]), txs[|txs| - 1])
  }

  lemma RowOfAfter(rows: Rows, tx: Transaction, c: string)
    ensures Lookup(After(rows, tx).packages, c) == Row(c, Lookup(rows.packages, c), tx)
  {
    hide Like, VotesAfter;
  }

  lemma {:induction false} RowOfAfterAll(rows: Rows, txs: seq<Transaction>, c: string)
    ensures Lookup(AfterAll(rows, txs).packages, c) == RowAll(c, Lookup(rows.packages, c), txs)
    decreases |txs|
  {
    hide After, Row;
    if txs != [] {
      var n := |txs| - 1;
      RowOfAfterAll(rows, txs[..n], c);
      RowOfAfter(AfterAll(rows, txs[..n]), txs[n], c);
    }
  }

  lemma {:induction false} RowAllConcat(c: string, p: Option<Package>, txs: seq<Transaction>, more: seq<Transaction>)
    ensures RowAll(c, p, txs + more) == RowAll(c, RowAll(c, p, txs), more)
    decreases |more|
  {
    hide Row;
    if more == [] {
      assert txs + more == txs;
    } else {
      var n := |more| - 1;
      assert (txs + more)[..|txs| + n] == txs + more[..n];
      RowAllConcat(c, p, txs, more[..n]);
    }
  }

  // ----- the columns of a row that is there, one by one

  predicate Publishes(c: string, tx: Transaction) { tx.Publish? && tx.record.canonical == c }

  predicate Revokes(c: string, tx: Transaction) { tx.Revoke? && tx.canonical == c }

  predicate PublishedIn(c: string, txs: seq<Transaction>) { exists i :: 0 <= i < |txs| && Publishes(c, txs[i]) }

  predicate RevokedIn(c: string, txs: seq<Transaction>) { exists i :: 0 <= i < |txs| && Revokes(c, txs[i]) }

  function BodyAfter(c: string, b: Body, txs: seq<Transaction>): Body {
    if txs == [] then b
    else
      var tx := txs[|txs| - 1];
      if Publishes(c, tx) then BodyOf(tx.record) else BodyAfter(c, b, txs[..|txs| - 1])
  }

  function StatusAfter(c: string, s: string, txs: seq<Transaction>): string {
    if txs == [] then s
    else
      var tx := txs[|txs| - 1];
      if Publishes(c, tx) then StatusText(tx.record.status)
      else if Revokes(c, tx) then "revoked"
      else StatusAfter(c, s, txs[..|txs| - 1])
  }

  function ReasonAfter(c: string, r: Option<string>, txs: seq<Transaction>): Option<string> {
    if txs == [] then r
    else
      var tx := txs[|txs| - 1];
      if Revokes(c, tx) then Some(tx.reason) else ReasonAfter(c, r, txs[..|txs| - 1])
  }

  function KeyAfter(c: string, k: string, txs: seq<Transaction>): string {
    if txs == [] then k
    else
      var tx := txs[|txs| - 1];
      if Publishes(c, tx) then tx.record.publisherPubkey
      else Rekeyed(c, KeyAfter(c, k, txs[..|txs| - 1]), tx)
  }

  lemma {:induction false} Columns(c: string, p: Package, txs: seq<Transaction>)
    ensures RowAll(c, Some(p), txs) == Some(Package(
              p.origin, BodyAfter(c, p.body, txs), StatusAfter(c, p.status, txs),
              KeyAfter(c, p.pubkey, txs), ReasonAfter(c, p.reason, txs)))
    decreases |txs|
  {
    hide Like;
    if txs != [] { Columns(c, p, txs[..|txs| - 1]); }
  }

  /** A block either overwrites these columns or leaves them. */
  lemma {:induction false} OverwritesOrLeaves(
    c: string, b: Body, b': Body, s: string, s': string, txs: seq<Transaction>)
    ensures BodyAfter(c, b, txs) == BodyAfter(c, b', txs) || (BodyAfter(c, b, txs) == b && BodyAfter(c, b', txs) == b')
    ensures || StatusAfter(c, s, txs) == StatusAfter(c, s', txs)
            || (StatusAfter(c, s, txs) == s && StatusAfter(c, s', txs) == s')
    decreases |txs|
  {
    if txs != [] { OverwritesOrLeaves(c, b, b', s, s', txs[..|txs| - 1]); }
  }

  /** The last revocation decides, if there is one. */
  lemma {:induction false} ReasonDecided(c: string, r: Option<string>, r': Option<string>, txs: seq<Transaction>)
    ensures RevokedIn(c, txs) ==> ReasonAfter(c, r, txs).Some? && ReasonAfter(c, r, txs) == ReasonAfter(c, r', txs)
    ensures !RevokedIn(c, txs) ==> ReasonAfter(c, r, txs) == r && ReasonAfter(c, r', txs) == r'
    decreases |txs|
  {
    if txs != [] {
      var n := |txs| - 1;
      ReasonDecided(c, r, r', txs[..n]);
      assert RevokedIn(c, txs) <==> RevokedIn(c, txs[..n]) || Revokes(c, txs[n]) by {
        assert forall i :: 0 <= i < n ==> txs[..n][i] == txs[i];
      }
    }
  }

  // ----- replaying a block on one package

  /** The key that the block leaves is one that the block would leave again. */
  predicate KeySettles(c: string, k: string, txs: seq<Transaction>) {
    KeyAfter(c, KeyAfter(c, k, txs), txs) == KeyAfter(c, k, txs)
  }

  lemma PresentReplay(c: string, p: Package, txs: seq<Transaction>)
    ensures RowAll(c, RowAll(c, Some(p), txs), txs) == RowAll(c, Some(p), txs) <==> KeySettles(c, p.pubkey, txs)
  {
    hide RowAll, BodyAfter, StatusAfter, ReasonAfter, KeyAfter;
    Columns(c, p, txs);
    var q := RowAll(c, Some(p), txs).value;
    Columns(c, q, txs);
    OverwritesOrLeaves(c, p.body, q.body, p.status, q.status, txs);
    ReasonDecided(c, p.reason, q.reason, txs);
  }

  function FirstPublish(c: string, txs: seq<Transaction>): (i: nat)
    ensures i <= |txs| && !PublishedIn(c, txs[..i])
    ensures i < |txs| ==> Publishes(c, txs[i])
  {
    if txs == [] then 0
    else if Publishes(c, txs[0]) then 0
    else
      var i := 1 + FirstPublish(c, txs[1..]);
      assert !PublishedIn(c, txs[..i]) by {
        assert forall j :: 1 <= j < i ==> txs[..i][j] == txs[1..][..i - 1][j - 1];
      }
      i
  }

  /** A block that first publishes a package, and revokes it before that and not after. */
  predicate RevokedTooEarly(c: string, txs: seq<Transaction>) {
    var i := FirstPublish(c, txs);
    i < |txs| && RevokedIn(c, txs[..i]) && !RevokedIn(c, txs[i + 1..])
  }

  lemma {:induction false} StaysAbsent(c: string, txs: seq<Transaction>)
    requires !PublishedIn(c, txs)
    ensures RowAll(c, None, txs) == None
  {
    hide Like, Upserted;
    if txs != [] {
      var n := |txs| - 1;
      assert !PublishedIn(c, txs[..n]) by {
        assert forall i :: 0 <= i < n ==> txs[..n][i] == txs[i];
      }
      StaysAbsent(c, txs[..n]);
      assert !Publishes(c, txs[n]);
    }
  }

  lemma RowAllAt(c: string, p: Option<Package>, txs: seq<Transaction>, i: nat)
    requires i < |txs|
    ensures RowAll(c, p, txs) == RowAll(c, Row(c, RowAll(c, p, txs[..i]), txs[i]), txs[i + 1..])
  {
    hide Row;
    assert txs == txs[..i + 1] + txs[i + 1..];
    RowAllConcat(c, p, txs[..i + 1], txs[i + 1..]);
    assert txs[..i + 1][..i] == txs[..i];
  }

  lemma AbsentReplay(c: string, txs: seq<Transaction>)
    ensures RowAll(c, RowAll(c, None, txs), txs) == RowAll(c, None, txs) <==> !RevokedTooEarly(c, txs)
  {
    hide RowAll, BodyAfter, StatusAfter, ReasonAfter, KeyAfter, FirstPublish, RevokedIn, PublishedIn;
    var i := FirstPublish(c, txs);
    StaysAbsent(c, txs[..i]);
    if i == |txs| {
      assert txs[..i] == txs;
    } else {
      var (pre, post, r) := (txs[..i], txs[i + 1..], txs[i].record);
      RowAllAt(c, None, txs, i);
      Columns(c, Inserted(r), post);
      var q := RowAll(c, None, txs).value;
      RowAllAt(c, Some(q), txs, i);
      Columns(c, q, pre);
      var kept := ReasonAfter(c, q.reason, pre);
      Columns(c, Inserted(r).(reason := kept), post);
      ReasonDecided(c, q.reason, q.reason, pre);
      ReasonDecided(c, None, kept, post);
    }
  }

  // ----- votes

  predicate BallotIn(k: VoteKey, ballots: seq<Ballot>) { exists i :: 0 <= i < |ballots| && ballots[i].key == k }

  /** A vote row keeps its first public key and takes the rest from its last ballot. */
  lemma {:induction false} VoteColumns(
      votes: map<VoteKey, VoteRow>, votes': map<VoteKey, VoteRow>, ballots: seq<Ballot>, k: VoteKey)
    ensures k in votes ==>
      && k in VotesAfter(votes, ballots)
      && VotesAfter(votes, ballots)[k].validatorPubkey == votes[k].validatorPubkey
    ensures BallotIn(k, ballots) ==>
      && k in VotesAfter(votes, ballots) && k in VotesAfter(votes', ballots)
      && VotesAfter(votes, ballots)[k].latest == VotesAfter(votes', ballots)[k].latest
    ensures !BallotIn(k, ballots) ==> Lookup(VotesAfter(votes, ballots), k) == Lookup(votes, k)
    decreases |ballots|
  {
    hide LatestOf;
    if ballots != [] {
      var n := |ballots| - 1;
      VoteColumns(votes, votes', ballots[..n], k);
      assert BallotIn(k, ballots) <==> BallotIn(k, ballots[..n]) || ballots[n].key == k by {
        assert forall i :: 0 <= i < n ==> ballots[..n][i] == ballots[i];
      }
    }
  }

  lemma VotesReplay(votes: map<VoteKey, VoteRow>, ballots: seq<Ballot>)
    ensures VotesAfter(VotesAfter(votes, ballots), ballots) == VotesAfter(votes, ballots)
  {
    hide VotesAfter, BallotIn;
    var once := VotesAfter(votes, ballots);
    var twice := VotesAfter(once, ballots);
    forall k ensures Lookup(twice, k) == Lookup(once, k) {
      VoteColumns(once, votes, ballots, k);
    }
    SameMaps(twice, once);
  }

  lemma SameMaps<K(!new), V>(m: map<K, V>, m': map<K, V>)
    requires forall k :: Lookup(m, k) == Lookup(m', k)
    ensures m == m'
  {
    assert forall k :: k in m <==> Lookup(m, k).Some?;
    assert forall k :: k in m' <==> Lookup(m', k).Some?;
    forall k | k in m ensures k in m' && m[k] == m'[k] {
      assert Lookup(m, k) == Lookup(m', k);
    }
    assert m.Keys == m'.Keys;
  }

  function Ballots(txs: seq<Transaction>): seq<Ballot> {
    if txs == [] then []
    else
      var tx := txs[|txs| - 1];
      Ballots(txs[..|txs| - 1]) + if tx.Publish? then BallotsOf(tx.record.canonical, tx.record.signatures) else []
  }

  lemma {:induction false} VotesConcat(votes: map<VoteKey, VoteRow>, ballots: seq<Ballot>, more: seq<Ballot>)
    ensures VotesAfter(votes, ballots + more) == VotesAfter(VotesAfter(votes, ballots), more)
    decreases |more|
  {
    hide UpsertedVote;
    if more == [] {
      assert ballots + more == ballots;
    } else {
      var n := |more| - 1;
      assert (ballots + more)[..|ballots| + n] == ballots + more[..n];
      VotesConcat(votes, ballots, more[..n]);
    }
  }

  lemma {:induction false} OtherTables(rows: Rows, txs: seq<Transaction>)
    ensures AfterAll(rows, txs).votes == VotesAfter(rows.votes, Ballots(txs))
    ensures AfterAll(rows, txs).blocks == rows.blocks
    decreases |txs|
  {
    hide Like, VotesAfter, BallotsOf, Upserted;
    if txs == [] {
      assert VotesAfter(rows.votes, []) == rows.votes by { NoVotes(rows.votes); }
    } else {
      var n := |txs| - 1;
      OtherTables(rows, txs[..n]);
      if txs[n].Publish? {
        VotesConcat(rows.votes, Ballots(txs[..n]), BallotsOf(txs[n].record.canonical, txs[n].record.signatures));
      } else {
        assert Ballots(txs) == Ballots(txs[..n]);
      }
    }
  }

  lemma NoVotes(votes: map<VoteKey, VoteRow>)
    ensures VotesAfter(votes, []) == votes
  {
  }

  // ----- replaying a block on all the rows

  /** What the block must not do to a package for its replay to be harmless: rotate keys in a chain,
      or, where the package is new, revoke it too early. */
  predicate Harmless(rows: Rows, txs: seq<Transaction>, c: string) {
    if c in rows.packages then KeySettles(c, rows.packages[c].pubkey, txs) else !RevokedTooEarly(c, txs)
  }

  ghost predicate ReplayHarmless(rows: Rows, b: Block) { forall c :: Harmless(rows, b.transactions, c) }

  lemma PackageReplay(rows: Rows, rows': Rows, txs: seq<Transaction>, c: string)
    requires rows'.packages == AfterAll(rows, txs).packages
    ensures Lookup(AfterAll(rows', txs).packages, c) == Lookup(rows'.packages, c) <==> Harmless(rows, txs, c)
  {
    hide AfterAll, RowAll, KeySettles, RevokedTooEarly;
    RowOfAfterAll(rows, txs, c);
    RowOfAfterAll(rows', txs, c);
    if c in rows.packages { PresentReplay(c, rows.packages[c], txs); } else { AbsentReplay(c, txs); }
  }

  /** Applying a block twice is applying it once, exactly when it is harmless to every package. */
  lemma ReplayExactlyWhenHarmless(rows: Rows, b: Block)
    ensures AfterBlock(AfterBlock(rows, b), b) == AfterBlock(rows, b) <==> ReplayHarmless(rows, b)
  {
    hide AfterAll, Harmless, VotesAfter, Ballots;
    var txs := b.transactions;
    var once := AfterBlock(rows, b);
    var twice := AfterBlock(once, b);
    forall c ensures Lookup(twice.packages, c) == Lookup(once.packages, c) <==> Harmless(rows, txs, c) {
      PackageReplay(rows, once, txs, c);
    }
    OtherTables(rows, txs);
    OtherTables(once, txs);
    VotesReplay(rows.votes, Ballots(txs));
    if ReplayHarmless(rows, b) {
      SameMaps(twice.packages, once.packages);
    }
  }

  // ----- when the conditions hold and when they fail

  predicate Rotates(tx: Transaction) { tx.RotatePublisherKey? && tx.oldPubkey != tx.newPubkey }

  /** No rotation takes up a key that a rotation of the same block hands out. */
  predicate NoChains(txs: seq<Transaction>) {
    forall i, j :: 0 <= i < |txs| && 0 <= j < |txs| && Rotates(txs[i]) && Rotates(txs[j]) ==>
      txs[i].newPubkey != txs[j].oldPubkey
  }

  lemma {:induction false} KeyDecided(c: string, k: string, k': string, txs: seq<Transaction>)
    requires PublishedIn(c, txs)
    ensures KeyAfter(c, k, txs) == KeyAfter(c, k', txs)
    decreases |txs|
  {
    hide Like;
    var n := |txs| - 1;
    if !Publishes(c, txs[n]) {
      assert PublishedIn(c, txs[..n]) by {
        var i :| 0 <= i < |txs| && Publishes(c, txs[i]);
        assert txs[..n][i] == txs[i];
      }
      KeyDecided(c, k, k', txs[..n]);
    }
  }

  predicate TakenUp(k: string, txs: seq<Transaction>) {
    exists j :: 0 <= j < |txs| && Rotates(txs[j]) && txs[j].oldPubkey == k
  }

  predicate HandedOut(k: string, txs: seq<Transaction>) {
    exists j :: 0 <= j < |txs| && Rotates(txs[j]) && txs[j].newPubkey == k
  }

  lemma {:induction false} KeyTravels(c: string, k: string, txs: seq<Transaction>)
    requires !PublishedIn(c, txs)
    ensures KeyAfter(c, k, txs) == k || HandedOut(KeyAfter(c, k, txs), txs)
    ensures !TakenUp(k, txs) ==> KeyAfter(c, k, txs) == k
    decreases |txs|
  {
    hide Like;
    if txs != [] {
      var n := |txs| - 1;
      assert forall i :: 0 <= i < n ==> txs[..n][i] == txs[i];
      assert !Publishes(c, txs[n]);
      KeyTravels(c, k, txs[..n]);
    }
  }

  /** Without chains of rotations every key settles. */
  lemma KeysSettleWithoutChains(c: string, k: string, txs: seq<Transaction>)
    requires NoChains(txs)
    ensures KeySettles(c, k, txs)
  {
    hide KeyAfter;
    var k' := KeyAfter(c, k, txs);
    if PublishedIn(c, txs) {
      KeyDecided(c, k, k', txs);
    } else {
      KeyTravels(c, k, txs);
      KeyTravels(c, k', txs);
    }
  }

  // ----- when a key settles

  lemma {:induction false} KeyAfterConcat(c: string, k: string, txs: seq<Transaction>, more: seq<Transaction>)
    ensures KeyAfter(c, k, txs + more) == KeyAfter(c, KeyAfter(c, k, txs), more)
    decreases |more|
  {
    hide Rekeyed;
    if more == [] {
      assert txs + more == txs;
    } else {
      var n := |more| - 1;
      assert (txs + more)[..|txs| + n] == txs + more[..n];
      KeyAfterConcat(c, k, txs, more[..n]);
    }
  }

  /** The first rotation of the package's key that takes up this key, or the length. */
  function FirstTakeUp(c: string, k: string, txs: seq<Transaction>): (i: nat)
    ensures i <= |txs|
    ensures forall j :: 0 <= j < i ==> Rekeyed(c, k, txs[j]) == k
    ensures i < |txs| ==> Rekeyed(c, k, txs[i]) != k
  {
    if txs == [] then 0
    else if Rekeyed(c, k, txs[0]) != k then 0
    else 1 + FirstTakeUp(c, k, txs[1..])
  }

  lemma {:induction false} KeyUntouched(c: string, k: string, txs: seq<Transaction>)
    requires !PublishedIn(c, txs) && forall j :: 0 <= j < |txs| ==> Rekeyed(c, k, txs[j]) == k
    ensures KeyAfter(c, k, txs) == k
    decreases |txs|
  {
    hide Rekeyed;
    if txs != [] {
      var n := |txs| - 1;
      assert forall j :: 0 <= j < n ==> txs[..n][j] == txs[j];
      assert !Publishes(c, txs[n]);
      KeyUntouched(c, k, txs[..n]);
    }
  }

  lemma KeyFromFirstTakeUp(c: string, k: string, txs: seq<Transaction>)
    requires !PublishedIn(c, txs)
    ensures var i := FirstTakeUp(c, k, txs);
            KeyAfter(c, k, txs) == if i == |txs| then k else KeyAfter(c, txs[i].newPubkey, txs[i + 1..])
  {
    hide Like, FirstTakeUp, KeyAfter;
    var i := FirstTakeUp(c, k, txs);
    assert forall j :: 0 <= j < i ==> txs[..i][j] == txs[j];
    KeyUntouched(c, k, txs[..i]);
    if i < |txs| {
      assert txs == txs[..i] + ([txs[i]] + txs[i + 1..]);
      KeyAfterConcat(c, k, txs[..i], [txs[i]] + txs[i + 1..]);
      KeyAfterConcat(c, k, [txs[i]], txs[i + 1..]);
      KeyAfterOne(c, k, txs[i]);
      assert !Publishes(c, txs[i]);
    } else {
      assert txs[..i] == txs;
    }
  }

  lemma KeyAfterOne(c: string, k: string, tx: Transaction)
    requires !Publishes(c, tx)
    ensures KeyAfter(c, k, [tx]) == Rekeyed(c, k, tx)
  {
    hide Rekeyed;
    assert [tx][..0] == [];
  }

  /** A key settles exactly when the block publishes the package, or no rotation of the block takes up the
      key left behind, or the first that does starts a chain that leads back to it. */
  lemma KeySettlesExactlyWhen(c: string, k: string, txs: seq<Transaction>)
    ensures var last := KeyAfter(c, k, txs);
            var i := FirstTakeUp(c, last, txs);
            KeySettles(c, k, txs) <==>
            PublishedIn(c, txs) || i == |txs| || KeyAfter(c, txs[i].newPubkey, txs[i + 1..]) == last
  {
    hide KeyAfter, FirstTakeUp, Rekeyed;
    var last := KeyAfter(c, k, txs);
    if PublishedIn(c, txs) { KeyDecided(c, k, last, txs); } else { KeyFromFirstTakeUp(c, last, txs); }
  }

  /** A chain of two rotations in the wrong order: replaying the block moves the package's key again. */
  lemma ChainedRotationsFail(rows: Rows, b: Block, c: string, first: string, second: string, third: string)
    requires first != second && second != third && third != first
    requires c in rows.packages && rows.packages[c].pubkey == first
    requires b.transactions == [RotatePublisherKey("", second, third), RotatePublisherKey("", first, second)]
    ensures AfterBlock(AfterBlock(rows, b), b) != AfterBlock(rows, b)
  {
    hide AfterBlock, KeySettles;
    ReplayExactlyWhenHarmless(rows, b);
    ChainDoesNotSettle(c, first, second, third);
    assert !Harmless(rows, b.transactions, c);
  }

  lemma ChainDoesNotSettle(c: string, first: string, second: string, third: string)
    requires first != second && second != third && third != first
    ensures !KeySettles(c, first, [RotatePublisherKey("", second, third), RotatePublisherKey("", first, second)])
  {
    var (tx, tx') := (RotatePublisherKey("", second, third), RotatePublisherKey("", first, second));
    var txs := [tx, tx'];
    LikeAnything(c);
    assert "" + "%" == "%";
    assert txs[..1] == [tx] && txs[..1][..0] == [];
    assert KeyAfter(c, first, [tx]) == first && KeyAfter(c, first, txs) == second;
    assert KeyAfter(c, second, [tx]) == third && KeyAfter(c, second, txs) == third;
  }

  lemma {:induction false} LikeAnything(s: string)
    ensures Like(s, "%")
  {
    if s == [] {
      assert Like(s, "%"[1..]);
    } else {
      LikeAnything(s[1..]);
    }
  }

  /** A revocation that stands before the first publication, and not after it, fails on replay. */
  lemma EarlyRevocationFails(rows: Rows, b: Block, r: Record, reason: string)
    requires r.canonical !in rows.packages && b.transactions == [Revoke(r.canonical, reason), Publish(r)]
    ensures AfterBlock(AfterBlock(rows, b), b) != AfterBlock(rows, b)
  {
    hide AfterBlock;
    var (c, txs) := (r.canonical, b.transactions);
    ReplayExactlyWhenHarmless(rows, b);
    var i := FirstPublish(c, txs);
    assert !Publishes(c, txs[0]) && Publishes(c, txs[1..][0]);
    assert i == 1;
    assert Revokes(c, txs[..i][0]);
    assert txs[i + 1..] == [];
    assert !Harmless(rows, txs, c);
  }
}
