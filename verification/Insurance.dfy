/** The insurance pool, with real numbers for its amounts. */
module Insurance {
  import opened Wrappers

  datatype Policy = Policy(id: string, coverage: real, premium: real, expiresAt: int)

  datatype Claim = Claim(id: string, amount: real)

  datatype Resolved = Resolved(claim: Claim, approved: bool)

  type Policies = map<string, Policy>

  datatype Pool = Pool(balance: real, totalCoverage: real, policies: Policies, claims: seq<Resolved>)

  function New(initial: real): Pool { Pool(initial, 0.0, map[], []) }

  /** A ratio of balance to coverage of at least one. Dividing by zero gives an infinity or no number,
      and only a negative infinity compares below one. */
  predicate Solvent(balance: real, coverage: real) {
    if coverage == 0.0 then balance >= 0.0 else balance / coverage >= 1.0
  }

  predicate Expired(p: Policy, now: int) { now > p.expiresAt }

  function Lapsed(m: Policies, now: int): Policies { map k | k in m && Expired(m[k], now) :: m[k] }

  function Kept(m: Policies, now: int): Policies { map k | k in m && !Expired(m[k], now) :: m[k] }

  /** The coverage of all the policies of a map. */
  ghost function Coverage(m: Policies): real {
    if m == map[] then 0.0 else var k :| k in m; m[k].coverage + Coverage(m - {k})
  }

  // ----- operations

  function AfterAdd(pool: Pool, p: Policy): Pool {
    var coverage := pool.totalCoverage + p.coverage;
    if !Solvent(pool.balance, coverage) then pool
    else pool.(balance := pool.balance + p.premium, totalCoverage := coverage, policies := pool.policies[p.id := p])
  }

  function AfterClaim(pool: Pool, c: Claim, approved: bool): Pool {
    if approved && c.amount > pool.balance then pool
    else if approved then
      Pool(pool.balance - c.amount, pool.totalCoverage - c.amount, pool.policies, pool.claims + [Resolved(c, true)])
    else pool.(claims := pool.claims + [Resolved(c, false)])
  }

  ghost function AfterCleanup(pool: Pool, now: int): Pool {
    pool.(totalCoverage := pool.totalCoverage - Coverage(Lapsed(pool.policies, now)),
          policies := Kept(pool.policies, now))
  }

  class InsurancePool {
    var balance: real
    var totalCoverage: real
    var policies: Policies
    var claims: seq<Resolved>

    ghost function Abstract(): Pool
      reads this
    {
      Pool(balance, totalCoverage, policies, claims)
    }

    constructor (initial: real)
      ensures Abstract() == New(initial)
    {
      balance, totalCoverage, policies, claims := initial, 0.0, map[], [];
    }

    method AddPolicy(p: Policy) returns (ok: bool)
      modifies this
      ensures Abstract() == AfterAdd(old(Abstract()), p)
      ensures ok <==> Solvent(old(balance), old(totalCoverage) + p.coverage)
    {
      var coverage := totalCoverage + p.coverage;
      if !Solvent(balance, coverage) { return false; }
      balance := balance + p.premium;
      totalCoverage := coverage;
      policies := policies[p.id := p];
      return true;
    }

    method ProcessClaim(c: Claim, approved: bool) returns (r: Option<real>)
      modifies this
      ensures Abstract() == AfterClaim(old(Abstract()), c, approved)
      ensures r == if !approved then Some(0.0) else if c.amount > old(balance) then None else Some(c.amount)
    {
      var payout := 0.0;
      if approved {
        if c.amount > balance { return None; }
        balance := balance - c.amount;
        totalCoverage := totalCoverage - c.amount;
        payout := c.amount;
      }
      claims := claims + [Resolved(c, approved)];
      return Some(payout);
    }

    method Replenish(amount: real)
      modifies this
      ensures Abstract() == old(Abstract()).(balance := old(balance) + amount)
    {
      balance := balance + amount;
    }

    method CleanupExpired(now: int) returns (removed: nat)
      modifies this
      ensures Abstract() == AfterCleanup(old(Abstract()), now)
      ensures removed == |Lapsed(old(policies), now)|
    {
      hide Remaining, ToVisit, Coverage, Lapsed, Kept;
      var before := policies;
      var rest := policies.Keys;
      VisitBounds(before, now);
      LapsedCount(before, now);
      while rest != {}
        invariant rest <= before.Keys
        invariant balance == old(balance) && claims == old(claims)
        invariant policies == Remaining(before, rest, now)
        invariant totalCoverage - Coverage(ToVisit(before, rest, now))
               == old(totalCoverage) - Coverage(Lapsed(before, now))
        decreases |rest|
      {
        var k :| k in rest;
        VisitStep(before, rest, k, now);
        if Expired(before[k], now) {
          totalCoverage := totalCoverage - before[k].coverage;
          policies := policies - {k};
        }
        rest := rest - {k};
      }
      NoCoverage();
      removed := |before| - |policies|;
    }
  }

  /** The lapsed policies still to be visited, and the map as it is by then. */
  ghost function ToVisit(m: Policies, rest: set<string>, now: int): Policies {
    map k | k in m && k in rest && Expired(m[k], now) :: m[k]
  }

  ghost function Remaining(m: Policies, rest: set<string>, now: int): Policies {
    map k | k in m && (k in rest || !Expired(m[k], now)) :: m[k]
  }

  lemma VisitBounds(m: Policies, now: int)
    ensures ToVisit(m, m.Keys, now) == Lapsed(m, now) && Remaining(m, m.Keys, now) == m
    ensures ToVisit(m, {}, now) == map[] && Remaining(m, {}, now) == Kept(m, now)
  {
  }

  lemma LapsedCount(m: Policies, now: int)
    ensures |Kept(m, now)| + |Lapsed(m, now)| == |m|
  {
    var (kept, lapsed) := (Kept(m, now), Lapsed(m, now));
    assert kept.Keys !! lapsed.Keys && kept.Keys + lapsed.Keys == m.Keys;
    assert |kept.Keys + lapsed.Keys| == |kept.Keys| + |lapsed.Keys|;
    assert |kept.Keys| == |kept| && |lapsed.Keys| == |lapsed| && |m.Keys| == |m|;
  }

  lemma VisitStep(m: Policies, rest: set<string>, k: string, now: int)
    requires k in rest && k in m
    ensures Coverage(ToVisit(m, rest, now))
         == Coverage(ToVisit(m, rest - {k}, now)) + if Expired(m[k], now) then m[k].coverage else 0.0
    ensures Remaining(m, rest - {k}, now)
         == if Expired(m[k], now) then Remaining(m, rest, now) - {k} else Remaining(m, rest, now)
  {
    hide Coverage;
    if Expired(m[k], now) {
      CoverageWithout(ToVisit(m, rest, now), k);
      assert ToVisit(m, rest, now) - {k} == ToVisit(m, rest - {k}, now);
    } else {
      assert ToVisit(m, rest, now) == ToVisit(m, rest - {k}, now);
    }
  }

  lemma NoCoverage()
    ensures Coverage(map[]) == 0.0
  {
  }

  lemma {:induction false} CoverageWithout(m: Policies, k: string)
    requires k in m
    ensures Coverage(m) == m[k].coverage + Coverage(m - {k})
    decreases |m|
  {
    var j :| j in m && Coverage(m) == m[j].coverage + Coverage(m - {j});
    if j != k {
      CoverageWithout(m - {j}, k);
      CoverageWithout(m - {k}, j);
      assert m - {j} - {k} == m - {k} - {j};
    }
  }

  lemma CoverageUpdate(m: Policies, k: string, p: Policy)
    ensures Coverage(m[k := p]) == Coverage(m) + p.coverage - if k in m then m[k].coverage else 0.0
  {
    hide Coverage;
    CoverageWithout(m[k := p], k);
    assert m[k := p] - {k} == m - {k};
    if k in m { CoverageWithout(m, k); } else { assert m - {k} == m; }
  }

  lemma {:induction false} CoverageSplit(m: Policies, now: int)
    ensures Coverage(m) == Coverage(Lapsed(m, now)) + Coverage(Kept(m, now))
    decreases |m|
  {
    hide Coverage;
    if m == map[] {
      NoCoverage();
      assert Lapsed(m, now) == map[] && Kept(m, now) == map[];
    } else {
      var k :| k in m;
      CoverageWithout(m, k);
      CoverageSplit(m - {k}, now);
      if Expired(m[k], now) {
        CoverageWithout(Lapsed(m, now), k);
        assert Lapsed(m, now) - {k} == Lapsed(m - {k}, now) && Kept(m, now) == Kept(m - {k}, now);
      } else {
        CoverageWithout(Kept(m, now), k);
        assert Kept(m, now) - {k} == Kept(m - {k}, now) && Lapsed(m, now) == Lapsed(m - {k}, now);
      }
    }
  }

  lemma {:induction false} CoverageNonNegative(m: Policies)
    requires forall k :: k in m ==> m[k].coverage >= 0.0
    ensures Coverage(m) >= 0.0
    decreases |m|
  {
    hide Coverage;
    if m == map[] {
      NoCoverage();
    } else {
      var k :| k in m;
      CoverageWithout(m, k);
      CoverageNonNegative(m - {k});
    }
  }

  // ----- every run

  datatype Event =
    | Add(policy: Policy)
    | Process(claim: Claim, approved: bool)
    | Replenish(amount: real)
    | Cleanup(now: int)

  ghost function Next(pool: Pool, e: Event): Pool {
    match e
    case Add(p) => AfterAdd(pool, p)
    case Process(c, approved) => AfterClaim(pool, c, approved)
    case Replenish(amount) => pool.(balance := pool.balance + amount)
    case Cleanup(now) => AfterCleanup(pool, now)
  }

  ghost function Run(pool: Pool, events: seq<Event>): Pool {
    if events == [] then pool else Next(Run(pool, events[..|events| - 1]), events[|events| - 1])
  }

  predicate NonNegative(e: Event) {
    match e
    case Add(p) => p.coverage >= 0.0 && p.premium >= 0.0
    case Replenish(amount) => amount >= 0.0
    case _ => true
  }

  ghost predicate Sound(pool: Pool) {
    && pool.balance >= pool.totalCoverage && pool.balance >= 0.0
    && forall k :: k in pool.policies ==> pool.policies[k].coverage >= 0.0
  }

  /** With premiums, coverage and replenishments that are not negative every run keeps the balance at or
      above the coverage and above zero; claims may be of any amount. */
  lemma {:induction false} RunStaysSolvent(initial: real, events: seq<Event>)
    requires initial >= 0.0 && forall i :: 0 <= i < |events| ==> NonNegative(events[i])
    ensures Sound(Run(New(initial), events))
    decreases |events|
  {
    hide Coverage;
    if events != [] {
      var n := |events| - 1;
      RunStaysSolvent(initial, events[..n]);
      NextStaysSolvent(Run(New(initial), events[..n]), events[n]);
    }
  }

  lemma NextStaysSolvent(pool: Pool, e: Event)
    requires Sound(pool) && NonNegative(e)
    ensures Sound(Next(pool, e))
  {
    hide Coverage;
    match e
    case Add(p) =>
      var coverage := pool.totalCoverage + p.coverage;
      if Solvent(pool.balance, coverage) { SolventCovers(pool.balance, coverage); }
    case Cleanup(now) => CoverageNonNegative(Lapsed(pool.policies, now));
    case _ =>
  }

  lemma SolventCovers(balance: real, coverage: real)
    requires balance >= 0.0 && Solvent(balance, coverage)
    ensures balance >= coverage
  {
    if coverage > 0.0 {
      assert balance == balance / coverage * coverage;
    }
  }

  /** What a run has taken in and given out. */
  datatype Totals = Totals(
    premiums: real, coverage: real, replenished: real, payouts: real, lapsed: real, replaced: real)

  /** Amounts that an event moves. */
  ghost function Record(t: Totals, pool: Pool, e: Event): Totals {
    match e
    case Add(p) =>
      if !Solvent(pool.balance, pool.totalCoverage + p.coverage) then t
      else t.(premiums := t.premiums + p.premium, coverage := t.coverage + p.coverage,
              replaced := t.replaced + if p.id in pool.policies then pool.policies[p.id].coverage else 0.0)
    case Process(c, approved) => if approved && c.amount <= pool.balance then t.(payouts := t.payouts + c.amount) else t
    case Replenish(amount) => t.(replenished := t.replenished + amount)
    case Cleanup(now) => t.(lapsed := t.lapsed + Coverage(Lapsed(pool.policies, now)))
  }

  ghost function Recorded(pool: Pool, events: seq<Event>): Totals {
    if events == [] then Totals(0.0, 0.0, 0.0, 0.0, 0.0, 0.0)
    else
      var n := |events| - 1;
      Record(Recorded(pool, events[..n]), Run(pool, events[..n]), events[n])
  }

  /** The books balance: both totals, and the coverage of the policies in force, are what came in less
      what went out. */
  lemma {:induction false} BooksBalance(initial: real, events: seq<Event>)
    ensures var (pool, t) := (Run(New(initial), events), Recorded(New(initial), events));
            && pool.balance == initial + t.premiums + t.replenished - t.payouts
            && pool.totalCoverage == t.coverage - t.payouts - t.lapsed
            && Coverage(pool.policies) == t.coverage - t.lapsed - t.replaced
    decreases |events|
  {
    hide Coverage, Solvent;
    if events == [] {
      NoCoverage();
    } else {
      var n := |events| - 1;
      BooksBalance(initial, events[..n]);
      var pool := Run(New(initial), events[..n]);
      match events[n]
      case Add(p) => CoverageUpdate(pool.policies, p.id, p);
      case Cleanup(now) => CoverageSplit(pool.policies, now);
      case _ =>
    }
  }

  // ----- recorded coverage and coverage in force

  /** What the pool's own claim history says was paid. */
  function PaidOut(claims: seq<Resolved>): real {
    if claims == [] then 0.0
    else
      var last := claims[|claims| - 1];
      PaidOut(claims[..|claims| - 1]) + if last.approved then last.claim.amount else 0.0
  }

  lemma {:induction false} PayoutsAreOnRecord(initial: real, events: seq<Event>)
    ensures Recorded(New(initial), events).payouts == PaidOut(Run(New(initial), events).claims)
    decreases |events|
  {
    hide Coverage, Solvent;
    if events != [] {
      var n := |events| - 1;
      PayoutsAreOnRecord(initial, events[..n]);
      var pool := Run(New(initial), events[..n]);
      match events[n]
      case Process(c, approved) => assert (pool.claims + [Resolved(c, approved)])[..|pool.claims|] == pool.claims;
      case _ =>
    }
  }

  /** The recorded coverage is that of the policies in force exactly when the payouts on record equal the
      coverage of policies that others with their id have replaced. */
  lemma CoverageIsInForceExactlyWhen(initial: real, events: seq<Event>)
    ensures var (pool, t) := (Run(New(initial), events), Recorded(New(initial), events));
            pool.totalCoverage == Coverage(pool.policies) <==> PaidOut(pool.claims) == t.replaced
  {
    hide Coverage, Run, Recorded;
    BooksBalance(initial, events);
    PayoutsAreOnRecord(initial, events);
  }

  /** How far the recorded coverage is above that in force. */
  ghost function Gap(pool: Pool): real { pool.totalCoverage - Coverage(pool.policies) }

  /** A claim that is paid, and a policy that takes the place of another. */
  predicate MovesGap(pool: Pool, e: Event) {
    match e
    case Process(c, approved) => approved && c.amount != 0.0 && c.amount <= pool.balance
    case Add(p) =>
      Solvent(pool.balance, pool.totalCoverage + p.coverage)
      && p.id in pool.policies && pool.policies[p.id].coverage != 0.0
    case _ => false
  }

  /** An event keeps recorded and actual coverage as far apart as they were exactly when it is neither. */
  lemma GapKeptExactlyWhen(pool: Pool, e: Event)
    ensures Gap(Next(pool, e)) == Gap(pool) <==> !MovesGap(pool, e)
  {
    hide Coverage, Solvent;
    match e
    case Add(p) => CoverageUpdate(pool.policies, p.id, p);
    case Cleanup(now) => CoverageSplit(pool.policies, now);
    case _ =>
  }

  /** The balance covers the policies in force. */
  ghost predicate Covered(pool: Pool) { pool.balance >= Coverage(pool.policies) }

  /** The claim pays more than the balance holds above the coverage in force; or the policy brings the
      coverage in force above the balance, which the check on recorded coverage does not see. */
  ghost predicate Uncovers(pool: Pool, e: Event) {
    match e
    case Process(c, approved) => approved && pool.balance - Coverage(pool.policies) < c.amount <= pool.balance
    case Add(p) =>
      var inForce := Coverage(pool.policies) - if p.id in pool.policies then pool.policies[p.id].coverage else 0.0;
      Solvent(pool.balance, pool.totalCoverage + p.coverage) && inForce + p.coverage > pool.balance + p.premium
    case _ => false
  }

  /** A pool that covers its policies does so after an event exactly when it is neither of these. */
  lemma CoveredExactlyWhen(pool: Pool, e: Event)
    requires Sound(pool) && NonNegative(e) && Covered(pool)
    ensures Covered(Next(pool, e)) <==> !Uncovers(pool, e)
  {
    hide Coverage, Solvent;
    match e
    case Add(p) => CoverageUpdate(pool.policies, p.id, p);
    case Cleanup(now) =>
      CoverageSplit(pool.policies, now);
      CoverageNonNegative(Lapsed(pool.policies, now));
    case _ =>
  }

  predicate PaysNothing(e: Event) { e.Process? && e.approved ==> e.claim.amount <= 0.0 }

  /** Without payouts a pool covers its policies after every run. */
  lemma {:induction false} RunStaysCovered(initial: real, events: seq<Event>)
    requires initial >= 0.0
    requires forall i :: 0 <= i < |events| ==> NonNegative(events[i]) && PaysNothing(events[i])
    ensures var pool := Run(New(initial), events); Gap(pool) >= 0.0 && Covered(pool)
    decreases |events|
  {
    hide Coverage, Solvent;
    RunStaysSolvent(initial, events);
    if events == [] {
      NoCoverage();
    } else {
      var n := |events| - 1;
      RunStaysCovered(initial, events[..n]);
      RunStaysSolvent(initial, events[..n]);
      var pool := Run(New(initial), events[..n]);
      match events[n]
      case Add(p) => CoverageUpdate(pool.policies, p.id, p);
      case Cleanup(now) => CoverageSplit(pool.policies, now);
      case _ =>
    }
  }

  /** After any run the balance covers the policies in force exactly when the payouts on record, less the
      coverage replaced, are within what the balance is above the recorded coverage. */
  lemma CoversInForceExactlyWhen(initial: real, events: seq<Event>)
    ensures var (pool, t) := (Run(New(initial), events), Recorded(New(initial), events));
            Covered(pool) <==> PaidOut(pool.claims) - t.replaced <= pool.balance - pool.totalCoverage
  {
    hide Coverage, Run, Recorded;
    BooksBalance(initial, events);
    PayoutsAreOnRecord(initial, events);
  }

  /** A policy, a payout of half of it, its expiry, and a policy like it. */
  function LapsedAfterPayout(): seq<Event> {
    [Add(Policy("a", 100.0, 0.0, 0)), Process(Claim("c", 50.0), true), Cleanup(1), Add(Policy("b", 100.0, 0.0, 9))]
  }

  /** It leaves the pool solvent on its books, with half of the coverage in force. */
  lemma SolventButNotCovered()
    ensures var pool := Run(New(100.0), LapsedAfterPayout());
            && pool.balance == pool.totalCoverage == 50.0 && Coverage(pool.policies) == 100.0 && !Covered(pool)
  {
    hide Coverage;
    var (a, b, es) := (Policy("a", 100.0, 0.0, 0), Policy("b", 100.0, 0.0, 9), LapsedAfterPayout());
    assert es[..3][..2][..1][..0] == [] && es[..3][..2][..1][0] == es[0];
    var p1 := Run(New(100.0), es[..3][..2][..1]);
    assert Run(New(100.0), []) == New(100.0);
    assert p1 == Next(New(100.0), es[0]);
    assert 100.0 / 100.0 == 1.0 && New(100.0).policies["a" := a] == map["a" := a];
    assert p1 == Pool(100.0, 100.0, map["a" := a], []);
    var p2 := Run(New(100.0), es[..3][..2]);
    assert p2 == Pool(50.0, 50.0, map["a" := a], [Resolved(Claim("c", 50.0), true)]);
    CoverageOne("a", a);
    CoverageOne("b", b);
    assert Lapsed(p2.policies, 1) == map["a" := a] && Kept(p2.policies, 1) == map[];
    var p3 := Run(New(100.0), es[..3]);
    assert p3 == Pool(50.0, -50.0, map[], [Resolved(Claim("c", 50.0), true)]);
    assert Run(New(100.0), es).policies == map["b" := b];
  }

  lemma CoverageOne(k: string, p: Policy)
    ensures Coverage(map[k := p]) == p.coverage
  {
    hide Coverage;
    CoverageWithout(map[k := p], k);
    assert map[k := p] - {k} == map[];
    NoCoverage();
  }

  // ----- what the checks and the records say

  /** A policy is accepted exactly when the coverage it leads to is neither negative nor above the balance;
      with a balance below zero, when both are negative and the coverage is not below the balance. */
  lemma SolventExactlyWhen(balance: real, coverage: real)
    ensures Solvent(balance, coverage) <==> 0.0 <= coverage <= balance || balance <= coverage < 0.0
  {
    if coverage != 0.0 {
      assert balance == balance / coverage * coverage;
    }
  }

  /** Cleaning up keeps exactly the policies whose last moment has not passed, as they are. */
  lemma KeptExactlyWhen(pool: Pool, now: int, k: string)
    ensures var after := Next(pool, Cleanup(now)).policies;
            && (k in after <==> k in pool.policies && now <= pool.policies[k].expiresAt)
            && (k in after ==> after[k] == pool.policies[k])
  {
    hide Coverage;
  }

  /** The claims of a run that were not refused, in order: refused are approved ones above the balance. */
  ghost function Settled(initial: real, events: seq<Event>): seq<Resolved> {
    if events == [] then []
    else
      var (n, earlier) := (|events| - 1, Settled(initial, events[..|events| - 1]));
      match events[n]
      case Process(c, approved) =>
        if approved && c.amount > Run(New(initial), events[..n]).balance then earlier
        else earlier + [Resolved(c, approved)]
      case _ => earlier
  }

  /** All of them are on record, and nothing else. */
  lemma {:induction false} ClaimsAreOnRecord(initial: real, events: seq<Event>)
    ensures Run(New(initial), events).claims == Settled(initial, events)
    decreases |events|
  {
    hide Coverage, Solvent;
    if events != [] { ClaimsAreOnRecord(initial, events[..|events| - 1]); }
  }
}
