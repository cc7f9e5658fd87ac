/** Choosing and ranking block proposers by a score computed from public data. */
module Proposers {
  import opened Wrappers
  import opened Sorting
  import Text

  datatype Candidate = Candidate(id: string, pubkey: string)

  /** The digest of a public key and the epoch seed. */
  type Score = (string, string) -> string

  datatype Scored = Scored(id: string, score: string)

  function ScoreAll(vs: seq<Candidate>, seed: string, score: Score): (ss: seq<Scored>)
    ensures |ss| == |vs|
  {
    seq(|vs|, i requires 0 <= i < |vs| => Scored(vs[i].id, score(vs[i].pubkey, seed)))
  }

  // ----- the proposer: the first candidate with the lowest score

  /** The first of the lowest-scored entries. */
  function Lowest(ss: seq<Scored>): Scored
    requires ss != []
  {
    if |ss| == 1 then ss[0]
    else
      var best := Lowest(ss[..|ss| - 1]);
      if Text.Leq(best.score, ss[|ss| - 1].score) then best else ss[|ss| - 1]
  }

  function Selected(vs: seq<Candidate>, seed: string, score: Score): Option<string> {
    if vs == [] then None else Some(Lowest(ScoreAll(vs, seed, score)).id)
  }

  ghost predicate LowestScore(ss: seq<Scored>, x: Scored) {
    x in ss && forall y :: y in ss ==> Text.Leq(x.score, y.score)
  }

  lemma {:induction false} LowestIsLowest(ss: seq<Scored>)
    requires ss != []
    ensures LowestScore(ss, Lowest(ss))
  {
    Text.LeqTotal(ss[0].score, ss[0].score);
    if |ss| > 1 {
      var n := |ss| - 1;
      LowestIsLowest(ss[..n]);
      var (best, last) := (Lowest(ss[..n]), ss[n]);
      Text.LeqTotal(best.score, last.score);
      Text.LeqTotal(last.score, last.score);
      forall y | y in ss ensures Text.Leq(Lowest(ss).score, y.score) {
        if y in ss[..n] && Lowest(ss) == last {
          Text.LeqTransitive(last.score, best.score, y.score);
        }
      }
    }
  }

  lemma LowestAgree(ss: seq<Scored>, x: Scored, y: Scored)
    requires LowestScore(ss, x) && LowestScore(ss, y)
    ensures x.score == y.score
  {
    Text.LeqAntisymmetric(x.score, y.score);
  }

  /** A lowest-scored entry moved to the front is the one chosen. */
  lemma {:induction false} FrontWins(ss: seq<Scored>)
    requires ss != [] && LowestScore(ss, ss[0])
    ensures Lowest(ss) == ss[0]
  {
    if |ss| > 1 {
      FrontWins(ss[..|ss| - 1]);
    }
  }

  ghost predicate SameCandidates(vs: seq<Candidate>, vs': seq<Candidate>) {
    multiset(vs) == multiset(vs')
  }

  lemma {:induction false} ScoredMultiset(vs: seq<Candidate>, vs': seq<Candidate>, seed: string, score: Score)
    requires SameCandidates(vs, vs')
    ensures multiset(ScoreAll(vs, seed, score)) == multiset(ScoreAll(vs', seed, score))
    decreases |vs|
  {
    hide ScoreAll, Without;
    SameMembers(vs, vs');
    if vs != [] {
      var (ss, ss') := (ScoreAll(vs, seed, score), ScoreAll(vs', seed, score));
      assert vs[0] in vs;
      var i :| 0 <= i < |vs'| && vs'[i] == vs[0];
      ScoreWithout(vs, 0, seed, score);
      ScoreWithout(vs', i, seed, score);
      TakeOutSame(vs, 0, vs', i);
      TakeOutSame(ss, 0, ss', i);
      ScoredMultiset(Without(vs, 0), Without(vs', i), seed, score);
    } else {
      assert ScoreAll(vs, seed, score) == [] && ScoreAll(vs', seed, score) == [];
    }
  }

  lemma ScoreWithout(vs: seq<Candidate>, i: nat, seed: string, score: Score)
    requires i < |vs|
    ensures |Without(vs, i)| == |vs| - 1
    ensures ScoreAll(vs, seed, score)[i] == Scored(vs[i].id, score(vs[i].pubkey, seed))
    ensures ScoreAll(Without(vs, i), seed, score) == Without(ScoreAll(vs, seed, score), i)
  {
  }

  lemma SameScored(vs: seq<Candidate>, vs': seq<Candidate>, seed: string, score: Score)
    requires SameCandidates(vs, vs')
    ensures multiset(ScoreAll(vs, seed, score)) == multiset(ScoreAll(vs', seed, score))
    ensures forall x :: x in ScoreAll(vs, seed, score) <==> x in ScoreAll(vs', seed, score)
    ensures |vs| == |vs'|
  {
    hide ScoreAll;
    ScoredMultiset(vs, vs', seed, score);
    SameMembers(ScoreAll(vs, seed, score), ScoreAll(vs', seed, score));
  }

  /** All lowest-scored validators carry one id. */
  ghost predicate OneLowestId(vs: seq<Candidate>, seed: string, score: Score) {
    forall x, y :: LowestScore(ScoreAll(vs, seed, score), x) && LowestScore(ScoreAll(vs, seed, score), y)
                   ==> x.id == y.id
  }

  ghost predicate SelectionIgnoresOrder(vs: seq<Candidate>, seed: string, score: Score) {
    forall vs' :: SameCandidates(vs, vs') ==> Selected(vs', seed, score) == Selected(vs, seed, score)
  }

  lemma OneLowestSelected(vs: seq<Candidate>, vs': seq<Candidate>, seed: string, score: Score)
    requires vs != [] && OneLowestId(vs, seed, score) && SameCandidates(vs, vs')
    ensures Selected(vs', seed, score) == Selected(vs, seed, score)
  {
    hide Lowest, ScoreAll;
    var (ss, ss') := (ScoreAll(vs, seed, score), ScoreAll(vs', seed, score));
    SameScored(vs, vs', seed, score);
    LowestIsLowest(ss);
    LowestIsLowest(ss');
    assert LowestScore(ss, Lowest(ss'));
  }

  /** A lowest-scored validator listed first is selected. */
  lemma ListedFirst(vs: seq<Candidate>, i: nat, seed: string, score: Score) returns (vs': seq<Candidate>)
    requires i < |vs| && LowestScore(ScoreAll(vs, seed, score), ScoreAll(vs, seed, score)[i])
    ensures SameCandidates(vs, vs') && Selected(vs', seed, score) == Some(vs[i].id)
  {
    hide Lowest;
    vs' := [vs[i]] + Without(vs, i);
    TakeOut(vs, i);
    SameScored(vs, vs', seed, score);
    FrontWins(ScoreAll(vs', seed, score));
  }

  /** The choice is the same for every order in which the validators are listed exactly when all
      lowest-scored validators carry one id. */
  lemma SelectionIgnoresOrderExactlyWhen(vs: seq<Candidate>, seed: string, score: Score)
    requires vs != []
    ensures SelectionIgnoresOrder(vs, seed, score) <==> OneLowestId(vs, seed, score)
  {
    hide Lowest, Selected;
    if OneLowestId(vs, seed, score) {
      forall vs' | SameCandidates(vs, vs') ensures Selected(vs', seed, score) == Selected(vs, seed, score) {
        OneLowestSelected(vs, vs', seed, score);
      }
    } else {
      var ss := ScoreAll(vs, seed, score);
      var x, y :| LowestScore(ss, x) && LowestScore(ss, y) && x.id != y.id;
      var i :| 0 <= i < |ss| && ss[i] == x;
      var j :| 0 <= j < |ss| && ss[j] == y;
      var us := ListedFirst(vs, i, seed, score);
      var ws := ListedFirst(vs, j, seed, score);
    }
  }

  // ----- the ranking

  predicate RankLeq(a: Scored, b: Scored) {
    if a.score == b.score then Text.Leq(a.id, b.id) else Text.Leq(a.score, b.score)
  }

  lemma RankOrder()
    ensures TotalPreorder(RankLeq)
    ensures forall s :: AntisymmetricOn(s, RankLeq)
  {
    forall a, b ensures RankLeq(a, b) || RankLeq(b, a) {
      Text.LeqTotal(a.score, b.score);
      Text.LeqTotal(a.id, b.id);
    }
    forall a, b, c | RankLeq(a, b) && RankLeq(b, c) ensures RankLeq(a, c) {
      RankTransitive(a, b, c);
    }
    forall a, b | RankLeq(a, b) && RankLeq(b, a) ensures a == b {
      if a.score == b.score {
        Text.LeqAntisymmetric(a.id, b.id);
      } else {
        Text.LeqAntisymmetric(a.score, b.score);
      }
    }
  }

  lemma RankTransitive(a: Scored, b: Scored, c: Scored)
    requires RankLeq(a, b) && RankLeq(b, c)
    ensures RankLeq(a, c)
  {
    if a.score == b.score == c.score {
      Text.LeqTransitive(a.id, b.id, c.id);
    } else {
      if a.score != b.score && b.score != c.score {
        Text.LeqTransitive(a.score, b.score, c.score);
        if a.score == c.score {
          Text.LeqAntisymmetric(a.score, b.score);
        }
      }
    }
  }

  function IdsOf(ss: seq<Scored>): (ids: seq<string>)
    ensures |ids| == |ss|
  {
    seq(|ss|, i requires 0 <= i < |ss| => ss[i].id)
  }

  function Ranking(vs: seq<Candidate>, seed: string, score: Score): seq<Scored> {
    Sort(ScoreAll(vs, seed, score), RankLeq)
  }

  function RankProposers(vs: seq<Candidate>, seed: string, score: Score): seq<string> {
    IdsOf(Ranking(vs, seed, score))
  }

  function Position(ids: seq<string>, id: string): (r: Option<nat>)
    ensures r.Some? ==> r.value < |ids| && ids[r.value] == id && id !in ids[..r.value]
    ensures r.None? <==> id !in ids
  {
    if ids == [] then None
    else if ids[0] == id then Some(0)
    else
      match Position(ids[1..], id)
      case None => None
      case Some(k) => Some(k + 1)
  }

  function ProposerRank(vs: seq<Candidate>, seed: string, score: Score, id: string): Option<nat> {
    Position(RankProposers(vs, seed, score), id)
  }

  /** The ranking lists every validator once, by score and then by id, however they were listed. */
  lemma RankingIsCanonical(vs: seq<Candidate>, vs': seq<Candidate>, seed: string, score: Score)
    requires SameCandidates(vs, vs')
    ensures Sorted(Ranking(vs, seed, score), RankLeq)
    ensures multiset(Ranking(vs, seed, score)) == multiset(ScoreAll(vs, seed, score))
    ensures RankProposers(vs, seed, score) == RankProposers(vs', seed, score)
  {
    hide Sort;
    RankOrder();
    SortSorts(ScoreAll(vs, seed, score), RankLeq);
    SortPermutes(ScoreAll(vs, seed, score), RankLeq);
    SameScored(vs, vs', seed, score);
    SortIgnoresOrder(ScoreAll(vs, seed, score), ScoreAll(vs', seed, score), RankLeq);
  }

  ghost predicate DistinctScores(vs: seq<Candidate>, seed: string, score: Score) {
    forall i, j :: 0 <= i < j < |vs| ==> score(vs[i].pubkey, seed) != score(vs[j].pubkey, seed)
  }

  ghost predicate DistinctIds(vs: seq<Candidate>) {
    forall i, j :: 0 <= i < j < |vs| ==> vs[i].id != vs[j].id
  }

  lemma RankingFirst(vs: seq<Candidate>, seed: string, score: Score)
    requires vs != []
    ensures RankProposers(vs, seed, score) != []
    ensures LowestScore(ScoreAll(vs, seed, score), Ranking(vs, seed, score)[0])
  {
    hide Sort;
    var ss := ScoreAll(vs, seed, score);
    var rs := Ranking(vs, seed, score);
    RankOrder();
    SortSorts(ss, RankLeq);
    SortMembers(ss, RankLeq);
    assert ss[0] in rs;
    assert rs[0] in ss;
    forall y | y in ss ensures Text.Leq(rs[0].score, y.score) {
      assert y in rs;
      FirstIsLeast(rs, RankLeq, y);
      Text.LeqTotal(y.score, y.score);
    }
  }

  /** With different scores the head of the ranking is the proposer, in whatever order listed. */
  lemma HeadOfRankingIsSelected(vs: seq<Candidate>, vs': seq<Candidate>, seed: string, score: Score)
    requires vs != [] && SameCandidates(vs, vs') && DistinctScores(vs, seed, score)
    ensures RankProposers(vs, seed, score) != []
    ensures Selected(vs', seed, score) == Some(RankProposers(vs, seed, score)[0])
  {
    hide Sort, Lowest, Ranking;
    var ss := ScoreAll(vs, seed, score);
    RankingFirst(vs, seed, score);
    LowestIsLowest(ss);
    forall x, y | LowestScore(ss, x) && LowestScore(ss, y) ensures x.id == y.id {
      LowestAgree(ss, x, y);
      var i :| 0 <= i < |ss| && ss[i] == x;
      var j :| 0 <= j < |ss| && ss[j] == y;
      assert i == j;
    }
    OneLowestSelected(vs, vs', seed, score);
  }

  /** With different ids the rank of a validator and the ranking are inverse to each other. */
  lemma RankInvertsRanking(vs: seq<Candidate>, seed: string, score: Score, k: nat)
    requires DistinctIds(vs) && k < |vs|
    ensures |RankProposers(vs, seed, score)| == |vs|
    ensures ProposerRank(vs, seed, score, RankProposers(vs, seed, score)[k]) == Some(k)
    ensures forall id :: ProposerRank(vs, seed, score, id).None? <==> forall i :: 0 <= i < |vs| ==> vs[i].id != id
  {
    hide Sort, Position;
    var ss := ScoreAll(vs, seed, score);
    var rs := Ranking(vs, seed, score);
    var ids := RankProposers(vs, seed, score);
    SortMembers(ss, RankLeq);
    IdsNoRepeats(ss, rs);
    forall id
      ensures ProposerRank(vs, seed, score, id).None? <==> forall i :: 0 <= i < |vs| ==> vs[i].id != id
    {
      IdsMembers(ss, rs, id);
      assert forall i :: 0 <= i < |vs| ==> ss[i].id == vs[i].id;
      assert ProposerRank(vs, seed, score, id) == Position(IdsOf(rs), id);
    }
    var r := Position(ids, ids[k]);
    assert ids[k] in ids;
    assert ids[r.value] == ids[k];
  }

  lemma IdsMembers(ss: seq<Scored>, rs: seq<Scored>, id: string)
    requires forall x :: x in rs <==> x in ss
    ensures id in IdsOf(rs) <==> exists i :: 0 <= i < |ss| && ss[i].id == id
  {
    if id in IdsOf(rs) {
      var i :| 0 <= i < |rs| && IdsOf(rs)[i] == id;
      assert rs[i] in ss;
    }
    if exists i :: 0 <= i < |ss| && ss[i].id == id {
      var i :| 0 <= i < |ss| && ss[i].id == id;
      assert ss[i] in rs;
      var j :| 0 <= j < |rs| && rs[j] == ss[i];
      assert IdsOf(rs)[j] == id;
    }
  }

  lemma IdsNoRepeats(ss: seq<Scored>, rs: seq<Scored>)
    requires multiset(ss) == multiset(rs)
    requires forall i, j :: 0 <= i < j < |ss| ==> ss[i].id != ss[j].id
    ensures forall i, j :: 0 <= i < j < |rs| ==> rs[i].id != rs[j].id
  {
    forall i, j | 0 <= i < j < |rs| ensures rs[i].id != rs[j].id {
      assert rs[i] in multiset(ss) && rs[j] in multiset(ss);
      var a :| 0 <= a < |ss| && ss[a] == rs[i];
      var b :| 0 <= b < |ss| && ss[b] == rs[j];
      if a == b {
        TwoCopies(rs, i, j);
        OneCopy(ss, a);
      }
    }
  }

  lemma TwoCopies(rs: seq<Scored>, i: nat, j: nat)
    requires i < j < |rs| && rs[i] == rs[j]
    ensures multiset(rs)[rs[i]] >= 2
  {
    assert rs == rs[..i] + [rs[i]] + rs[i + 1..j] + [rs[j]] + rs[j + 1..];
  }

  lemma OneCopy(ss: seq<Scored>, a: nat)
    requires a < |ss| && forall i, j :: 0 <= i < j < |ss| ==> ss[i].id != ss[j].id
    ensures multiset(ss)[ss[a]] == 1
  {
    assert ss == ss[..a] + [ss[a]] + ss[a + 1..];
    assert ss[a] !in ss[..a] && ss[a] !in ss[a + 1..];
  }
}
