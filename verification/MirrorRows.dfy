/** What the rows of the mirror say after a block, in terms of its transactions by their places. */
module MirrorRows {
  import opened Wrappers
  import opened Mirror

  // ----- votes

  /** Place (i, j): the j-th signature of transaction i, a publication of the package, by the validator. */
  predicate SignedAt(txs: seq<Transaction>, i: nat, j: nat, c: string, id: string) {
    && i < |txs| && txs[i].Publish? && txs[i].record.canonical == c
    && j < |txs[i].record.signatures| && txs[i].record.signatures[j].validatorId == id
  }

  ghost predicate LastSigned(txs: seq<Transaction>, i: nat, j: nat, c: string, id: string) {
    SignedAt(txs, i, j, c, id) && forall k: nat, l: nat :: SignedAt(txs, k, l, c, id) ==> k < i || (k == i && l <= j)
  }

  ghost predicate FirstSigned(txs: seq<Transaction>, i: nat, j: nat, c: string, id: string) {
    SignedAt(txs, i, j, c, id) && forall k: nat, l: nat :: SignedAt(txs, k, l, c, id) ==> k > i || (k == i && l >= j)
  }

  ghost predicate NeverSigned(txs: seq<Transaction>, c: string, id: string) {
    forall k: nat, l: nat :: !SignedAt(txs, k, l, c, id)
  }

  predicate Says(row: VoteRow, s: Signature) {
    && row.latest.signature == s.signature && row.latest.signedAt == s.signedAt
    && match s.vote
       case Approve => row.latest.vote == "approve" && row.latest.reason == None
       case Reject(reason) => row.latest.vote == "reject" && row.latest.reason == Some(reason)
  }

  lemma {:induction false} BallotsConcat(txs: seq<Transaction>, more: seq<Transaction>)
    ensures Ballots(txs + more) == Ballots(txs) + Ballots(more)
    decreases |more|
  {
    hide BallotsOf;
    if more == [] {
      assert txs + more == txs;
    } else {
      var n := |more| - 1;
      assert (txs + more)[..|txs| + n] == txs + more[..n];
      BallotsConcat(txs, more[..n]);
    }
  }

  /** Every ballot has its place. */
  lemma {:induction false} BallotPlace(txs: seq<Transaction>, c: string, id: string) returns (i: nat, j: nat)
    requires BallotIn(VoteKey(c, id), Ballots(txs))
    ensures SignedAt(txs, i, j, c, id)
    decreases |txs|
  {
    var (n, k) := (|txs| - 1, VoteKey(c, id));
    var (earlier, tx) := (Ballots(txs[..n]), txs[n]);
    if BallotIn(k, earlier) {
      i, j := BallotPlace(txs[..n], c, id);
    } else {
      var m :| 0 <= m < |Ballots(txs)| && Ballots(txs)[m].key == k;
      assert m >= |earlier|;
      i, j := n, m - |earlier|;
      assert Ballots(txs)[m] == BallotsOf(tx.record.canonical, tx.record.signatures)[j];
    }
  }

  /** The ballots before a place, and those after it. */
  function BallotsBefore(txs: seq<Transaction>, i: nat, j: nat): seq<Ballot>
    requires i < |txs| && txs[i].Publish? && j <= |txs[i].record.signatures|
  {
    Ballots(txs[..i]) + BallotsOf(txs[i].record.canonical, txs[i].record.signatures[..j])
  }

  function BallotsFrom(txs: seq<Transaction>, i: nat, j: nat): seq<Ballot>
    requires i < |txs| && txs[i].Publish? && j <= |txs[i].record.signatures|
  {
    BallotsOf(txs[i].record.canonical, txs[i].record.signatures[j..]) + Ballots(txs[i + 1..])
  }

  lemma BallotsSplit(txs: seq<Transaction>, i: nat, j: nat)
    requires i < |txs| && txs[i].Publish? && j < |txs[i].record.signatures|
    ensures var s := txs[i].record.signatures[j];
            Ballots(txs) == BallotsBefore(txs, i, j) + [Ballot(VoteKey(txs[i].record.canonical, s.validatorId), s)]
                            + BallotsFrom(txs, i, j + 1)
  {
    hide Ballots, BallotsOf;
    var (c, sigs) := (txs[i].record.canonical, txs[i].record.signatures);
    assert txs == txs[..i] + [txs[i]] + txs[i + 1..];
    BallotsConcat(txs[..i] + [txs[i]], txs[i + 1..]);
    BallotsConcat(txs[..i], [txs[i]]);
    OneTransaction(txs[i]);
    SignaturesSplit(c, sigs, j);
  }

  lemma SignaturesSplit(c: string, sigs: seq<Signature>, j: nat)
    requires j < |sigs|
    ensures BallotsOf(c, sigs)
         == BallotsOf(c, sigs[..j]) + [Ballot(VoteKey(c, sigs[j].validatorId), sigs[j])] + BallotsOf(c, sigs[j + 1..])
  {
  }

  lemma OneTransaction(tx: Transaction)
    requires tx.Publish?
    ensures Ballots([tx]) == BallotsOf(tx.record.canonical, tx.record.signatures)
  {
    assert [tx][..0] == [];
  }

  lemma NoneAfterLast(txs: seq<Transaction>, i: nat, j: nat, c: string, id: string)
    requires LastSigned(txs, i, j, c, id)
    ensures !BallotIn(VoteKey(c, id), BallotsFrom(txs, i, j + 1))
  {
    var (k, sigs) := (VoteKey(c, id), txs[i].record.signatures);
    var (own, later) := (BallotsOf(c, sigs[j + 1..]), Ballots(txs[i + 1..]));
    if m :| 0 <= m < |own| && own[m].key == k {
      assert SignedAt(txs, i, j + 1 + m, c, id);
    }
    if BallotIn(k, later) {
      var i', j' := BallotPlace(txs[i + 1..], c, id);
      assert SignedAt(txs, i + 1 + i', j', c, id);
    }
  }

  lemma NoneBeforeFirst(txs: seq<Transaction>, i: nat, j: nat, c: string, id: string)
    requires FirstSigned(txs, i, j, c, id)
    ensures !BallotIn(VoteKey(c, id), BallotsBefore(txs, i, j))
  {
    var (k, sigs) := (VoteKey(c, id), txs[i].record.signatures);
    var (earlier, own) := (Ballots(txs[..i]), BallotsOf(c, sigs[..j]));
    if m :| 0 <= m < |own| && own[m].key == k {
      assert SignedAt(txs, i, m, c, id);
    }
    if BallotIn(k, earlier) {
      var i', j' := BallotPlace(txs[..i], c, id);
      assert SignedAt(txs, i', j', c, id);
    }
  }

  lemma UpsertSays(before: Option<VoteRow>, s: Signature)
    ensures Says(UpsertedVote(before, s), s)
    ensures UpsertedVote(before, s).validatorPubkey
         == if before.Some? then before.value.validatorPubkey else s.validatorPubkey
  {
  }

  lemma OneBallot(votes: map<VoteKey, VoteRow>, ballots: seq<Ballot>, b: Ballot)
    ensures VotesAfter(votes, ballots + [b])
         == VotesAfter(votes, ballots)[b.key := UpsertedVote(Lookup(VotesAfter(votes, ballots), b.key), b.signature)]
  {
    assert (ballots + [b])[..|ballots|] == ballots;
  }

  /** After a block the row of a validator says what its last signature in the block says. */
  lemma VoteRowSaysLast(rows: Rows, b: Block, c: string, id: string, i: nat, j: nat)
    requires LastSigned(b.transactions, i, j, c, id)
    ensures var votes := AfterBlock(rows, b).votes;
            VoteKey(c, id) in votes && Says(votes[VoteKey(c, id)], b.transactions[i].record.signatures[j])
  {
    hide VotesAfter, Ballots, BallotsBefore, BallotsFrom, BallotIn, Says, UpsertedVote, AfterAll;
    var (txs, k, s) := (b.transactions, VoteKey(c, id), b.transactions[i].record.signatures[j]);
    OtherTables(rows, txs);
    BallotsSplit(txs, i, j);
    NoneAfterLast(txs, i, j, c, id);
    var (pre, post) := (BallotsBefore(txs, i, j), BallotsFrom(txs, i, j + 1));
    VotesConcat(rows.votes, pre + [Ballot(k, s)], post);
    OneBallot(rows.votes, pre, Ballot(k, s));
    UpsertSays(Lookup(VotesAfter(rows.votes, pre), k), s);
    VoteColumns(VotesAfter(rows.votes, pre + [Ballot(k, s)]), rows.votes, post, k);
  }

  /** It keeps the public key it had, or has that of the first signature. */
  lemma VoteRowKeepsFirstKey(rows: Rows, b: Block, c: string, id: string, i: nat, j: nat)
    requires FirstSigned(b.transactions, i, j, c, id)
    ensures var (votes, k) := (AfterBlock(rows, b).votes, VoteKey(c, id));
            k in votes && votes[k].validatorPubkey
              == if k in rows.votes then rows.votes[k].validatorPubkey
                 else b.transactions[i].record.signatures[j].validatorPubkey
  {
    hide VotesAfter, Ballots, BallotsBefore, BallotsFrom, BallotIn, Says, UpsertedVote, AfterAll;
    var (txs, k, s) := (b.transactions, VoteKey(c, id), b.transactions[i].record.signatures[j]);
    OtherTables(rows, txs);
    BallotsSplit(txs, i, j);
    NoneBeforeFirst(txs, i, j, c, id);
    var (pre, post) := (BallotsBefore(txs, i, j), BallotsFrom(txs, i, j + 1));
    VotesConcat(rows.votes, pre + [Ballot(k, s)], post);
    OneBallot(rows.votes, pre, Ballot(k, s));
    VoteColumns(rows.votes, rows.votes, pre, k);
    UpsertSays(Lookup(VotesAfter(rows.votes, pre), k), s);
    VoteColumns(VotesAfter(rows.votes, pre + [Ballot(k, s)]), rows.votes, post, k);
  }

  /** A row that the block brings no signature for stays as it is. */
  lemma VoteRowUntouched(rows: Rows, b: Block, c: string, id: string)
    requires NeverSigned(b.transactions, c, id)
    ensures Lookup(AfterBlock(rows, b).votes, VoteKey(c, id)) == Lookup(rows.votes, VoteKey(c, id))
  {
    hide VotesAfter, Ballots, BallotIn, AfterAll;
    var (txs, k) := (b.transactions, VoteKey(c, id));
    OtherTables(rows, txs);
    if BallotIn(k, Ballots(txs)) {
      var i, j := BallotPlace(txs, c, id);
      assert false;
    }
    VoteColumns(rows.votes, rows.votes, Ballots(txs), k);
  }

  // ----- packages

  ghost predicate LastPublished(txs: seq<Transaction>, i: nat, c: string) {
    i < |txs| && Publishes(c, txs[i]) && forall k :: i < k < |txs| ==> !Publishes(c, txs[k])
  }

  ghost predicate FirstPublished(txs: seq<Transaction>, i: nat, c: string) {
    i < |txs| && Publishes(c, txs[i]) && forall k :: 0 <= k < i ==> !Publishes(c, txs[k])
  }

  lemma {:induction false} QuietColumns(c: string, p: Package, txs: seq<Transaction>)
    requires !PublishedIn(c, txs)
    ensures BodyAfter(c, p.body, txs) == p.body
    ensures StatusAfter(c, p.status, txs) == if RevokedIn(c, txs) then "revoked" else p.status
    ensures (forall i :: 0 <= i < |txs| ==> !txs[i].RotatePublisherKey?) ==> KeyAfter(c, p.pubkey, txs) == p.pubkey
    decreases |txs|
  {
    hide Like;
    if txs != [] {
      var n := |txs| - 1;
      assert forall i :: 0 <= i < n ==> txs[..n][i] == txs[i];
      assert !Publishes(c, txs[n]);
      QuietColumns(c, p, txs[..n]);
      assert RevokedIn(c, txs) <==> RevokedIn(c, txs[..n]) || Revokes(c, txs[n]);
    }
  }

  /** After a block a package has the contents of its last publication in it; the status of that too, or
      "revoked" where a revocation follows; and the key, where no rotation does. */
  lemma PackageRowSaysLast(rows: Rows, b: Block, c: string, i: nat)
    requires LastPublished(b.transactions, i, c)
    ensures c in AfterBlock(rows, b).packages
    ensures var (p, r) := (AfterBlock(rows, b).packages[c], b.transactions[i].record);
            var later := b.transactions[i + 1..];
            && p.body.contentHash == r.contentHash && p.body.ipfsCid == r.ipfsCid
            && p.body.blockHash == r.blockHash && p.body.findings == r.findings
            && (RevokedIn(c, later) || r.status == Revoked ==> p.status == "revoked")
            && (!RevokedIn(c, later) && r.status == Verified ==> p.status == "verified")
            && (!RevokedIn(c, later) && r.status == Pending ==> p.status == "pending")
            && ((forall k :: 0 <= k < |later| ==> !later[k].RotatePublisherKey?) ==> p.pubkey == r.publisherPubkey)
  {
    hide RowAll, AfterAll, BodyAfter, StatusAfter, KeyAfter, ReasonAfter;
    var (txs, later) := (b.transactions, b.transactions[i + 1..]);
    RowOfAfterAll(rows, txs, c);
    RowAllAt(c, Lookup(rows.packages, c), txs, i);
    var p := Upserted(RowAll(c, Lookup(rows.packages, c), txs[..i]), txs[i].record);
    Columns(c, p, later);
    assert forall k :: 0 <= k < |later| ==> later[k] == txs[i + 1 + k];
    QuietColumns(c, p, later);
  }

  /** A package that was not there has the name, version and date of its first publication in the block, and
      the count of accesses as a signed number of 32 bits. */
  lemma PackageRowSaysFirst(rows: Rows, b: Block, c: string, i: nat)
    requires FirstPublished(b.transactions, i, c) && c !in rows.packages
    ensures c in AfterBlock(rows, b).packages
    ensures var (o, r) := (AfterBlock(rows, b).packages[c].origin, b.transactions[i].record);
            && o.ecosystem == r.ecosystem && o.name == r.name && o.version == r.version
            && o.publishedAt == r.publishedAt && o.shielded == r.shielded && o.lastAccessed == r.lastAccessed
            && (r.accessCount < 0x8000_0000 ==> o.accessCount == r.accessCount)
            && (0x8000_0000 <= r.accessCount < 0x1_0000_0000 ==> o.accessCount == r.accessCount - 0x1_0000_0000)
  {
    hide RowAll, AfterAll, BodyAfter, StatusAfter, KeyAfter, ReasonAfter;
    var txs := b.transactions;
    RowOfAfterAll(rows, txs, c);
    RowAllAt(c, None, txs, i);
    assert !PublishedIn(c, txs[..i]);
    StaysAbsent(c, txs[..i]);
    Columns(c, Inserted(txs[i].record), txs[i + 1..]);
  }

  /** One that was there keeps those; and all but status, reason and key if the block does not publish it. */
  lemma PackageRowKept(rows: Rows, b: Block, c: string)
    requires c in rows.packages
    ensures c in AfterBlock(rows, b).packages
    ensures var (p, q) := (rows.packages[c], AfterBlock(rows, b).packages[c]);
            && q.origin == p.origin
            && (!PublishedIn(c, b.transactions) ==>
                  q.body == p.body && q.status == if RevokedIn(c, b.transactions) then "revoked" else p.status)
            && (!RevokedIn(c, b.transactions) ==> q.reason == p.reason)
  {
    hide RowAll, AfterAll, BodyAfter, StatusAfter, KeyAfter, ReasonAfter;
    var (txs, p) := (b.transactions, rows.packages[c]);
    RowOfAfterAll(rows, txs, c);
    Columns(c, p, txs);
    if !PublishedIn(c, txs) { QuietColumns(c, p, txs); }
    ReasonDecided(c, p.reason, p.reason, txs);
  }

  /** The reason of a package is that of the last revocation that found it there. */
  lemma PackageRowSaysWhy(rows: Rows, b: Block, c: string, i: nat)
    requires i < |b.transactions| && Revokes(c, b.transactions[i]) && !RevokedIn(c, b.transactions[i + 1..])
    requires c in rows.packages || PublishedIn(c, b.transactions[..i])
    ensures c in AfterBlock(rows, b).packages
    ensures AfterBlock(rows, b).packages[c].reason == Some(b.transactions[i].reason)
  {
    hide RowAll, AfterAll, BodyAfter, StatusAfter, KeyAfter, ReasonAfter;
    var (txs, p) := (b.transactions, Lookup(rows.packages, c));
    RowOfAfterAll(rows, txs, c);
    RowAllAt(c, p, txs, i);
    BecomesPresent(c, p, txs[..i]);
    var q := Row(c, RowAll(c, p, txs[..i]), txs[i]).value;
    Columns(c, q, txs[i + 1..]);
    ReasonDecided(c, q.reason, q.reason, txs[i + 1..]);
  }

  lemma {:induction false} BecomesPresent(c: string, p: Option<Package>, txs: seq<Transaction>)
    requires p.Some? || PublishedIn(c, txs)
    ensures RowAll(c, p, txs).Some?
    decreases |txs|
  {
    hide Like;
    if txs != [] {
      var n := |txs| - 1;
      assert forall i :: 0 <= i < n ==> txs[..n][i] == txs[i];
      if p.Some? || PublishedIn(c, txs[..n]) { BecomesPresent(c, p, txs[..n]); } else { assert Publishes(c, txs[n]); }
    }
  }

  /** No package comes from nowhere. */
  lemma PackageRowAbsent(rows: Rows, b: Block, c: string)
    requires c !in rows.packages && !PublishedIn(c, b.transactions)
    ensures c !in AfterBlock(rows, b).packages
  {
    hide RowAll, AfterAll;
    RowOfAfterAll(rows, b.transactions, c);
    StaysAbsent(c, b.transactions);
  }

  // ----- headers

  /** The block's header is stored under its height, unless there is one already; no other changes. */
  lemma HeaderRow(rows: Rows, b: Block, height: nat)
    ensures Lookup(AfterBlock(rows, b).blocks, height)
         == if height in rows.blocks then Some(rows.blocks[height])
            else if height == b.height then Some(b.header) else None
  {
    hide AfterAll;
    OtherTables(rows, b.transactions);
  }

  // ----- rotations

  predicate NoWildcards(prefix: string) {
    forall i :: 0 <= i < |prefix| ==> prefix[i] != '%' && prefix[i] != '_' && prefix[i] != '\\'
  }

  /** A prefix without wildcards matches exactly the names that start with it. */
  lemma {:induction false} PrefixMatches(s: string, prefix: string)
    requires NoWildcards(prefix)
    ensures Like(s, prefix + "%") <==> prefix <= s
    decreases |prefix|
  {
    if prefix == [] {
      LikeAnything(s);
      assert prefix + "%" == "%";
    } else {
      assert (prefix + "%")[0] == prefix[0] && (prefix + "%")[1..] == prefix[1..] + "%";
      if s != [] {
        PrefixMatches(s[1..], prefix[1..]);
        assert s == [s[0]] + s[1..] && prefix == [prefix[0]] + prefix[1..];
        assert prefix <= s <==> prefix[0] == s[0] && prefix[1..] <= s[1..];
      }
    }
  }

  /** A rotation by such a prefix moves exactly the packages under it that have the old key, and nothing
      else of them. */
  lemma RotationMoves(rows: Rows, prefix: string, oldKey: string, newKey: string, c: string)
    requires NoWildcards(prefix) && c in rows.packages
    ensures var after := After(rows, RotatePublisherKey(prefix, oldKey, newKey));
            && after.packages.Keys == rows.packages.Keys && after.votes == rows.votes && after.blocks == rows.blocks
            && after.packages[c]
               == rows.packages[c].(pubkey := if prefix <= c && rows.packages[c].pubkey == oldKey then newKey
                                              else rows.packages[c].pubkey)
  {
    hide Like;
    PrefixMatches(c, prefix);
  }
}
