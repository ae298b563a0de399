/** Sponsorship pools and the grants drawn from them, as a ledger.  Amounts are exact; the currency's
    rounding plays no part. */
module Sponsorship {
  import opened Wrappers

  datatype Pool = Pool(amount: real, remaining: real)

  /** A grant that is no longer active has either expired or been revoked. */
  datatype GrantState = Active | Expired | Revoked

  datatype Grant = Grant(pool: Option<string>, cost: real, expiresAt: int, state: GrantState)

  /** The tables: one pool for each month, and the grants, each identified by its position. */
  datatype Ledger = Ledger(pools: map<string, Pool>, grants: seq<Grant>)

  const POOL_FRACTION := 0.10

  function NotNegative(x: real): real { if x < 0.0 then 0.0 else x }

  function PoolAmount(netProfit: real): real { NotNegative(netProfit * POOL_FRACTION) }

  /** `calculateMonthlyPool`.  An existing pool is credited with the whole new amount: the amount of the
      previous calculation is not among the columns read, so it counts as zero. */
  function Calculate(l: Ledger, month: string, netProfit: real): Ledger {
    var amount := PoolAmount(netProfit);
    var remaining := if month in l.pools then NotNegative(l.pools[month].remaining + (amount - 0.0)) else amount;
    l.(pools := l.pools[month := Pool(amount, remaining)])
  }

  datatype Award = Award(pool: Option<string>, cost: real, expiresAt: int, beneficiaryExists: bool)

  datatype Failure = NotInFuture | NoBeneficiary | NoPool | Insufficient | NoGrant | AlreadyInactive

  predicate Deducts(a: Award) { a.pool.Some? && a.cost > 0.0 }

  function AwardFailure(l: Ledger, a: Award, now: int): Option<Failure> {
    if a.expiresAt <= now then Some(NotInFuture)
    else if !a.beneficiaryExists then Some(NoBeneficiary)
    else if Deducts(a) && a.pool.value !in l.pools then Some(NoPool)
    else if Deducts(a) && l.pools[a.pool.value].remaining < a.cost then Some(Insufficient)
    else None
  }

  /** The write of a balance read before. */
  function SetRemaining(l: Ledger, month: string, remaining: real): Ledger {
    if month in l.pools then l.(pools := l.pools[month := l.pools[month].(remaining := remaining)]) else l
  }

  function AddGrant(l: Ledger, a: Award): Ledger {
    l.(grants := l.grants + [Grant(a.pool, a.cost, a.expiresAt, Active)])
  }

  /** `awardGrant`: the pool is debited first; `inserted` says whether the grant's own row is then written. */
  function AfterAward(l: Ledger, a: Award, now: int, inserted: bool): Ledger {
    if AwardFailure(l, a, now).Some? then l
    else
      var debited := if Deducts(a) then SetRemaining(l, a.pool.value, l.pools[a.pool.value].remaining - a.cost) else l;
      if inserted then AddGrant(debited, a) else debited
  }

  function RevokeFailure(l: Ledger, id: nat): Option<Failure> {
    if id >= |l.grants| then Some(NoGrant) else if l.grants[id].state != Active then Some(AlreadyInactive) else None
  }

  /** The grant's part in its pool, if any. */
  predicate Refunds(g: Grant) { g.pool.Some? && g.cost > 0.0 }

  /** `increment_pool_remaining`, which adds to the balance of the moment. */
  function Increment(l: Ledger, month: string, amount: real): Ledger {
    if month in l.pools
    then l.(pools := l.pools[month := l.pools[month].(remaining := l.pools[month].remaining + amount)])
    else l
  }

  /** The writes of a revocation that found the grant active; `restored` says whether the refund succeeds. */
  function WriteRevoke(l: Ledger, id: nat, restored: bool): Ledger
    requires id < |l.grants|
  {
    var g := l.grants[id];
    var ended := l.(grants := l.grants[id := g.(state := Revoked)]);
    if Refunds(g) && restored then Increment(ended, g.pool.value, g.cost) else ended
  }

  /** `revokeGrant`. */
  function AfterRevoke(l: Ledger, id: nat, restored: bool): Ledger {
    if RevokeFailure(l, id).Some? then l else WriteRevoke(l, id, restored)
  }

  function Expire(g: Grant, now: int): Grant {
    if g.state == Active && g.expiresAt < now then g.(state := Expired) else g
  }

  /** Which of the first `n` grants are active and past their date. */
  function Due(grants: seq<Grant>, now: int, n: int): set<int>
    requires n <= |grants|
  {
    set i | 0 <= i < n && grants[i].state == Active && grants[i].expiresAt < now
  }

  lemma DueNext(grants: seq<Grant>, now: int, n: nat)
    requires n < |grants|
    ensures |Due(grants, now, n + 1)|
         == |Due(grants, now, n)| + if grants[n].state == Active && grants[n].expiresAt < now then 1 else 0
  {
    assert Due(grants, now, n + 1)
        == Due(grants, now, n) + if grants[n].state == Active && grants[n].expiresAt < now then {n} else {};
  }

  function ExpireAll(grants: seq<Grant>, now: int): (r: seq<Grant>)
    ensures |r| == |grants|
    ensures forall i :: 0 <= i < |grants| ==> r[i] == Expire(grants[i], now)
  {
    if grants == [] then [] else ExpireAll(grants[..|grants| - 1], now) + [Expire(grants[|grants| - 1], now)]
  }

  /** `processExpiredGrants`: nothing is refunded. */
  function ProcessExpired(l: Ledger, now: int): Ledger { l.(grants := ExpireAll(l.grants, now)) }

  class SponsorshipService {
    var pools: map<string, Pool>
    var grants: seq<Grant>

    function State(): Ledger
      reads this
    {
      Ledger(pools, grants)
    }

    constructor ()
      ensures State() == Ledger(map[], [])
    {
      pools, grants := map[], [];
    }

    method CalculateMonthlyPool(month: string, netProfit: real)
      modifies this`pools
      ensures State() == Calculate(old(State()), month, netProfit)
    {
      var poolAmount := PoolAmount(netProfit);
      if month in pools {
        var prevPoolAmount := 0.0;
        var newRemaining := NotNegative(pools[month].remaining + (poolAmount - prevPoolAmount));
        pools := pools[month := Pool(poolAmount, newRemaining)];
      } else {
        pools := pools[month := Pool(poolAmount, poolAmount)];
      }
    }

    method AwardGrant(a: Award, now: int, inserted: bool) returns (failure: Option<Failure>)
      modifies this
      ensures State() == AfterAward(old(State()), a, now, inserted)
      ensures failure == AwardFailure(old(State()), a, now)
    {
      if a.expiresAt <= now {
        return Some(NotInFuture);
      }
      if !a.beneficiaryExists {
        return Some(NoBeneficiary);
      }
      if a.pool.Some? && a.cost > 0.0 {
        var poolId := a.pool.value;
        if poolId !in pools {
          return Some(NoPool);
        }
        var remaining := pools[poolId].remaining;
        if remaining < a.cost {
          return Some(Insufficient);
        }
        pools := pools[poolId := pools[poolId].(remaining := remaining - a.cost)];
      }
      if inserted {
        grants := grants + [Grant(a.pool, a.cost, a.expiresAt, Active)];
      }
      return None;
    }

    method RevokeGrant(id: nat, restored: bool) returns (failure: Option<Failure>)
      modifies this
      ensures State() == AfterRevoke(old(State()), id, restored)
      ensures failure == RevokeFailure(old(State()), id)
    {
      if id >= |grants| {
        return Some(NoGrant);
      }
      var grant := grants[id];
      if grant.state != Active {
        return Some(AlreadyInactive);
      }
      grants := grants[id := grant.(state := Revoked)];
      if grant.pool.Some? && grant.cost > 0.0 && restored && grant.pool.value in pools {
        var pool := pools[grant.pool.value];
        pools := pools[grant.pool.value := pool.(remaining := pool.remaining + grant.cost)];
      }
      return None;
    }

    method ProcessExpiredGrants(now: int) returns (count: nat)
      modifies this`grants
      ensures State() == ProcessExpired(old(State()), now)
      ensures count == |Due(old(grants), now, |old(grants)|)|
    {
      count := 0;
      var seen: seq<Grant> := [];
      for i := 0 to |grants|
        invariant grants == old(grants) && seen == ExpireAll(grants[..i], now)
        invariant count == |Due(grants, now, i)|
      {
        DueNext(grants, now, i);
        assert grants[..i + 1][..i] == grants[..i];
        if grants[i].state == Active && grants[i].expiresAt < now {
          count := count + 1;
        }
        seen := seen + [Expire(grants[i], now)];
      }
      assert grants[..|grants|] == grants;
      grants := seen;
    }
  }

  // ----- the books -----------------------------------------------------------------------

  /** What a grant holds of a pool: its cost while it is active and after it has expired. */
  function Held(g: Grant, month: string): real {
    if g.pool == Some(month) && g.cost > 0.0 && g.state != Revoked then g.cost else 0.0
  }

  function HeldBy(grants: seq<Grant>, month: string): real {
    if grants == [] then 0.0 else HeldBy(grants[..|grants| - 1], month) + Held(grants[|grants| - 1], month)
  }

  lemma {:induction false} HeldAfter(grants: seq<Grant>, month: string, id: nat, g: Grant)
    requires id < |grants|
    ensures HeldBy(grants[id := g], month) == HeldBy(grants, month) - Held(grants[id], month) + Held(g, month)
  {
    var n := |grants| - 1;
    if id < n {
      HeldAfter(grants[..n], month, id, g);
      assert grants[id := g][..n] == grants[..n][id := g];
    } else {
      assert grants[id := g][..n] == grants[..n];
    }
  }

  lemma HeldMore(grants: seq<Grant>, g: Grant, month: string)
    ensures HeldBy(grants + [g], month) == HeldBy(grants, month) + Held(g, month)
  {
    assert (grants + [g])[..|grants|] == grants;
  }

  lemma {:induction false} HeldExpired(grants: seq<Grant>, now: int, month: string)
    ensures HeldBy(ExpireAll(grants, now), month) == HeldBy(grants, month)
  {
    if grants != [] {
      var n := |grants| - 1;
      HeldExpired(grants[..n], now, month);
      HeldMore(ExpireAll(grants[..n], now), Expire(grants[n], now), month);
    }
  }

  /** A run's books beside the tables: all that was ever credited to each pool, what was lost to a failed
      second write, and the grants refunded, in order. */
  datatype Books = Books(ledger: Ledger, credited: map<string, real>, lost: map<string, real>, refunded: seq<nat>)

  function Of(m: map<string, real>, month: string): real { if month in m then m[month] else 0.0 }

  datatype Step =
    | Calculation(month: string, netProfit: real)
    | Granting(award: Award, now: int, inserted: bool)
    | Revoking(id: nat, restored: bool)
    | Expiring(now: int)

  function Next(b: Books, step: Step): Books {
    match step
    case Calculation(month, netProfit) =>
      b.(ledger := Calculate(b.ledger, month, netProfit),
         credited := b.credited[month := Of(b.credited, month) + PoolAmount(netProfit)])
    case Granting(a, now, inserted) =>
      var next := b.(ledger := AfterAward(b.ledger, a, now, inserted));
      if AwardFailure(b.ledger, a, now).None? && Deducts(a) && !inserted
      then next.(lost := b.lost[a.pool.value := Of(b.lost, a.pool.value) + a.cost]) else next
    case Revoking(id, restored) =>
      var next := b.(ledger := AfterRevoke(b.ledger, id, restored));
      if RevokeFailure(b.ledger, id).Some? || !Refunds(b.ledger.grants[id]) then next
      else if restored then next.(refunded := b.refunded + [id])
      else
        var g := b.ledger.grants[id];
        next.(lost := b.lost[g.pool.value := Of(b.lost, g.pool.value) + g.cost])
    case Expiring(now) => b.(ledger := ProcessExpired(b.ledger, now))
  }

  function Run(b: Books, steps: seq<Step>): Books
    decreases |steps|
  {
    if steps == [] then b else Run(Next(b, steps[0]), steps[1..])
  }

  const NEW_BOOKS := Books(Ledger(map[], []), map[], map[], [])

  /** For every pool: what remains, what grants hold and what was lost are what was credited; no balance
      is negative. */
  predicate PoolBalanced(b: Books, month: string) {
    && (month in b.credited <==> month in b.ledger.pools)
    && Of(b.lost, month) >= 0.0
    && if month in b.ledger.pools then
         b.ledger.pools[month].remaining >= 0.0
         && b.ledger.pools[month].remaining + HeldBy(b.ledger.grants, month) + Of(b.lost, month) == b.credited[month]
         && 0.0 <= b.ledger.pools[month].amount <= b.credited[month]
       else HeldBy(b.ledger.grants, month) == 0.0 && Of(b.lost, month) == 0.0
  }

  ghost predicate Balanced(b: Books) { forall month :: PoolBalanced(b, month) }

  /** Grants are drawn from pools that exist, and only a revoked grant has been refunded, once. */
  predicate Orderly(b: Books) {
    && (forall i :: 0 <= i < |b.ledger.grants| && Refunds(b.ledger.grants[i]) ==>
         b.ledger.grants[i].pool.value in b.ledger.pools)
    && (forall n :: 0 <= n < |b.refunded| ==>
         b.refunded[n] < |b.ledger.grants| && b.ledger.grants[b.refunded[n]].state == Revoked)
    && forall n, m :: 0 <= n < m < |b.refunded| ==> b.refunded[n] != b.refunded[m]
  }

  lemma GrantingOrderly(b: Books, step: Step)
    requires Orderly(b) && step.Granting?
    ensures Orderly(Next(b, step))
  {
  }

  lemma RevokingOrderly(b: Books, step: Step)
    requires Orderly(b) && step.Revoking?
    ensures Orderly(Next(b, step))
  {
  }

  lemma StepOrderly(b: Books, step: Step)
    requires Orderly(b)
    ensures Orderly(Next(b, step))
  {
    if step.Granting? {
      GrantingOrderly(b, step);
    } else if step.Revoking? {
      RevokingOrderly(b, step);
    }
    hide AfterAward, AfterRevoke;
  }

  lemma CalculationBalanced(b: Books, step: Step, month: string)
    requires step.Calculation? && PoolBalanced(b, month)
    ensures PoolBalanced(Next(b, step), month)
  {
    hide HeldBy;
  }

  lemma GrantingBalanced(b: Books, step: Step, month: string)
    requires step.Granting? && PoolBalanced(b, month)
    ensures PoolBalanced(Next(b, step), month)
  {
    hide HeldBy;
    var a, next := step.award, Next(b, step);
    HeldMore(b.ledger.grants, Grant(a.pool, a.cost, a.expiresAt, Active), month);
    if AwardFailure(b.ledger, a, step.now).None? {
      var grants := if step.inserted then b.ledger.grants + [Grant(a.pool, a.cost, a.expiresAt, Active)]
                    else b.ledger.grants;
      if a.pool == Some(month) && a.cost > 0.0 {
        var pool := b.ledger.pools[month];
        assert next.ledger == Ledger(b.ledger.pools[month := pool.(remaining := pool.remaining - a.cost)], grants);
      } else {
        assert next.ledger.grants == grants && (month in b.ledger.pools <==> month in next.ledger.pools);
        assert month in b.ledger.pools ==> next.ledger.pools[month] == b.ledger.pools[month];
      }
    }
  }

  lemma RevokingBalanced(b: Books, step: Step, month: string)
    requires step.Revoking? && PoolBalanced(b, month) && Orderly(b)
    ensures PoolBalanced(Next(b, step), month)
  {
    var grants := b.ledger.grants;
    if step.id < |grants| {
      HeldAfter(grants, month, step.id, grants[step.id].(state := Revoked));
    }
    hide HeldBy;
  }

  lemma ExpiringBalanced(b: Books, step: Step, month: string)
    requires step.Expiring? && PoolBalanced(b, month)
    ensures PoolBalanced(Next(b, step), month)
  {
    HeldExpired(b.ledger.grants, step.now, month);
    hide HeldBy, ExpireAll;
  }

  lemma StepBalanced(b: Books, step: Step, month: string)
    requires Orderly(b) && PoolBalanced(b, month)
    ensures PoolBalanced(Next(b, step), month)
  {
    hide *;
    match step
    case Calculation(_, _) => CalculationBalanced(b, step, month);
    case Granting(_, _, _) => GrantingBalanced(b, step, month);
    case Revoking(_, _) => RevokingBalanced(b, step, month);
    case Expiring(_) => ExpiringBalanced(b, step, month);
  }

  /** Over every run the books balance for every pool, whatever writes fail. */
  lemma {:induction false} Conserved(b: Books, steps: seq<Step>)
    requires Orderly(b) && Balanced(b)
    ensures Orderly(Run(b, steps)) && Balanced(Run(b, steps))
    decreases |steps|
  {
    if steps != [] {
      StepOrderly(b, steps[0]);
      forall month ensures PoolBalanced(Next(b, steps[0]), month) {
        StepBalanced(b, steps[0], month);
      }
      Conserved(Next(b, steps[0]), steps[1..]);
    }
  }

  lemma NewBooks()
    ensures Orderly(NEW_BOOKS) && Balanced(NEW_BOOKS)
  {
  }

  // ----- the amount of a pool ----------------------------------------------------------------

  /** All that the run calculates for a month. */
  function Calculated(steps: seq<Step>, month: string): real {
    if steps == [] then 0.0
    else (if steps[0].Calculation? && steps[0].month == month then PoolAmount(steps[0].netProfit) else 0.0)
         + Calculated(steps[1..], month)
  }

  /** Every second write succeeds. */
  predicate Reliable(steps: seq<Step>) {
    forall i :: 0 <= i < |steps| ==>
             (steps[i].Granting? ==> steps[i].inserted) && (steps[i].Revoking? ==> steps[i].restored)
  }

  lemma {:induction false} CreditedIs(b: Books, steps: seq<Step>, month: string)
    ensures Of(Run(b, steps).credited, month) == Of(b.credited, month) + Calculated(steps, month)
    ensures Reliable(steps) ==> Of(Run(b, steps).lost, month) == Of(b.lost, month)
    decreases |steps|
  {
    if steps != [] {
      CreditedIs(Next(b, steps[0]), steps[1..], month);
      hide Calculate, AfterAward, AfterRevoke, ProcessExpired, PoolAmount;
    }
  }

  /** When second writes fail, pools and grants together fall short of what was calculated, never exceed it. */
  lemma ShortByLoss(steps: seq<Step>, month: string)
    requires month in Run(NEW_BOOKS, steps).ledger.pools
    ensures var b := Run(NEW_BOOKS, steps);
            var pool, held := b.ledger.pools[month], HeldBy(b.ledger.grants, month);
            && pool.remaining >= 0.0 && Of(b.lost, month) >= 0.0
            && pool.remaining + held == Calculated(steps, month) - Of(b.lost, month)
  {
    NewBooks();
    Conserved(NEW_BOOKS, steps);
    CreditedIs(NEW_BOOKS, steps, month);
    hide Run, Calculated, Orderly, HeldBy;
    assert PoolBalanced(Run(NEW_BOOKS, steps), month);
  }

  predicate IsCalculation(step: Step, month: string) { step.Calculation? && step.month == month }

  /** The last calculation for a month. */
  predicate IsLast(steps: seq<Step>, month: string, n: nat) {
    && n < |steps| && IsCalculation(steps[n], month)
    && forall i :: n < i < |steps| ==> !IsCalculation(steps[i], month)
  }

  lemma {:induction false} AmountKept(b: Books, steps: seq<Step>, month: string)
    requires month in b.ledger.pools && forall i :: 0 <= i < |steps| ==> !IsCalculation(steps[i], month)
    ensures var pools := Run(b, steps).ledger.pools;
            month in pools && pools[month].amount == b.ledger.pools[month].amount
    decreases |steps|
  {
    if steps != [] {
      AmountKept(Next(b, steps[0]), steps[1..], month);
    }
  }

  /** The amount of a pool is that of the last calculation. */
  lemma {:induction false} AmountIsLast(b: Books, steps: seq<Step>, month: string, n: nat)
    requires IsLast(steps, month, n)
    ensures var pools := Run(b, steps).ledger.pools;
            month in pools && pools[month].amount == PoolAmount(steps[n].netProfit)
    decreases |steps|
  {
    if n == 0 {
      AmountKept(Next(b, steps[0]), steps[1..], month);
    } else {
      AmountIsLast(Next(b, steps[0]), steps[1..], month, n - 1);
    }
  }

  lemma {:induction false} CalculatedUpTo(steps: seq<Step>, month: string, n: nat)
    requires IsLast(steps, month, n)
    ensures Calculated(steps, month) == Calculated(steps[..n], month) + PoolAmount(steps[n].netProfit)
    decreases n
  {
    if n == 0 {
      NothingCalculated(steps[1..], month);
    } else {
      CalculatedUpTo(steps[1..], month, n - 1);
      assert steps[..n][1..] == steps[1..][..n - 1];
    }
  }

  predicate NoProfit(steps: seq<Step>, month: string) {
    forall i :: 0 <= i < |steps| && IsCalculation(steps[i], month) ==> steps[i].netProfit <= 0.0
  }

  lemma {:induction false} NothingCalculated(steps: seq<Step>, month: string)
    ensures Calculated(steps, month) >= 0.0
    ensures Calculated(steps, month) == 0.0 <==> NoProfit(steps, month)
  {
    if steps != [] {
      NothingCalculated(steps[1..], month);
      if NoProfit(steps[1..], month) && (IsCalculation(steps[0], month) ==> steps[0].netProfit <= 0.0) {
        forall i | 0 <= i < |steps| && IsCalculation(steps[i], month) ensures steps[i].netProfit <= 0.0 {
          assert i > 0 ==> steps[i] == steps[1..][i - 1];
        }
      } else if !NoProfit(steps[1..], month) {
        var i :| 0 <= i < |steps[1..]| && IsCalculation(steps[1..][i], month) && steps[1..][i].netProfit > 0.0;
        assert steps[i + 1] == steps[1..][i];
      }
    }
  }

  /** When every write succeeds, what a pool still has and what its grants hold make up the pool's amount
      if and only if no calculation for the month but the last found a profit. */
  lemma AmountIff(steps: seq<Step>, month: string, last: nat)
    requires Reliable(steps) && IsLast(steps, month, last)
    ensures var l := Run(NEW_BOOKS, steps).ledger;
            && month in l.pools && l.pools[month].amount == PoolAmount(steps[last].netProfit)
            && l.pools[month].remaining >= 0.0
            && l.pools[month].remaining + HeldBy(l.grants, month) == Calculated(steps, month)
            && (l.pools[month].remaining + HeldBy(l.grants, month) == l.pools[month].amount
               <==> NoProfit(steps[..last], month))
  {
    AmountIsLast(NEW_BOOKS, steps, month, last);
    ShortByLoss(steps, month);
    CreditedIs(NEW_BOOKS, steps, month);
    CalculatedUpTo(steps, month, last);
    NothingCalculated(steps[..last], month);
    hide Run, Calculated, HeldBy, NoProfit, PoolAmount;
  }

  /** With one calculation for a month, pool and grants always make up its amount. */
  lemma CalculatedOnce(steps: seq<Step>, month: string, only: nat)
    requires Reliable(steps) && IsLast(steps, month, only)
    requires forall i :: 0 <= i < only ==> !IsCalculation(steps[i], month)
    ensures var l := Run(NEW_BOOKS, steps).ledger;
            && month in l.pools && l.pools[month].amount == PoolAmount(steps[only].netProfit)
            && l.pools[month].remaining + HeldBy(l.grants, month) == l.pools[month].amount
  {
    AmountIff(steps, month, only);
    hide Run, Calculated, HeldBy, PoolAmount;
  }

  /** The second of two calculations that both yield a profit makes the pool exceed its amount. */
  lemma CalculatedTwice(month: string, first: real, second: real)
    requires first > 0.0 && second > 0.0
    ensures var pools := Run(NEW_BOOKS, [Calculation(month, first), Calculation(month, second)]).ledger.pools;
            month in pools && pools[month].remaining > pools[month].amount
  {
    var steps := [Calculation(month, first), Calculation(month, second)];
    var a := Next(NEW_BOOKS, steps[0]);
    assert steps[1..] == [steps[1]] && [steps[1]][1..] == [];
    assert Run(a, [steps[1]]) == Next(a, steps[1]);
    assert first * POOL_FRACTION > 0.0;
  }

  // ----- single requests, read off the books ------------------------------------------------------

  /** A calculation credits its pool with a tenth of the profit, or with nothing for a loss, and makes that its
      amount; a balance below zero it lifts to zero at least, and no other pool and no grant changes. */
  lemma TenthCredited(l: Ledger, month: string, profit: real)
    ensures var after := Calculate(l, month, profit);
            var credit := if profit > 0.0 then profit / 10.0 else 0.0;
            var balance := (if month in l.pools then l.pools[month].remaining else 0.0) + credit;
            && after.grants == l.grants && after.pools.Keys == l.pools.Keys + {month}
            && after.pools[month] == Pool(credit, if balance < 0.0 then 0.0 else balance)
            && forall m :: m in l.pools && m != month ==> after.pools[m] == l.pools[m]
  {
    assert profit * 0.10 == profit / 10.0;
  }

  /** An award is granted if and only if it ends in the future, its beneficiary exists, and, if it has a cost
      and a pool, the pool exists and covers the cost, and a refusal names what is missing; it then takes the cost
      from the pool and adds an active grant, and otherwise changes nothing. */
  lemma GrantedIff(l: Ledger, a: Award, now: int)
    ensures var draws := a.pool.Some? && a.cost > 0.0;
            var granted := a.expiresAt > now && a.beneficiaryExists
              && (draws ==> a.pool.value in l.pools && l.pools[a.pool.value].remaining >= a.cost);
            var after := AfterAward(l, a, now, true);
            && (AwardFailure(l, a, now).None? <==> granted)
            && (AwardFailure(l, a, now) == Some(NotInFuture) <==> a.expiresAt <= now)
            && (AwardFailure(l, a, now) == Some(NoBeneficiary) <==> a.expiresAt > now && !a.beneficiaryExists)
            && (AwardFailure(l, a, now) == Some(NoPool) ==> draws && a.pool.value !in l.pools)
            && (AwardFailure(l, a, now) == Some(Insufficient) ==>
                 draws && a.pool.value in l.pools && l.pools[a.pool.value].remaining < a.cost)
            && (!granted ==> after == l)
            && (granted ==>
                 && after.grants == l.grants + [Grant(a.pool, a.cost, a.expiresAt, Active)]
                 && after.pools.Keys == l.pools.Keys
                 && forall m :: m in l.pools ==>
                      after.pools[m] == if draws && a.pool == Some(m)
                                        then l.pools[m].(remaining := l.pools[m].remaining - a.cost)
                                        else l.pools[m])
  {
  }

  /** A revocation ends an active grant and gives its cost back to its pool, if it has both; it changes nothing
      else, and nothing at all if the grant is not active. */
  lemma RevokedIff(l: Ledger, id: nat)
    ensures var after := AfterRevoke(l, id, true);
            && (RevokeFailure(l, id).None? <==> id < |l.grants| && l.grants[id].state == Active)
            && (RevokeFailure(l, id).Some? ==> after == l)
            && (RevokeFailure(l, id).None? ==>
                 var g := l.grants[id];
                 && after.grants == l.grants[id := g.(state := Revoked)] && after.pools.Keys == l.pools.Keys
                 && forall m :: m in l.pools ==>
                      after.pools[m] == if g.pool == Some(m) && g.cost > 0.0
                                        then l.pools[m].(remaining := l.pools[m].remaining + g.cost) else l.pools[m])
  {
  }

  /** The nightly job ends exactly the active grants whose time has passed, and touches no pool. */
  lemma ExpiredIff(l: Ledger, now: int)
    ensures var after := ProcessExpired(l, now);
            && after.pools == l.pools && |after.grants| == |l.grants|
            && forall i :: 0 <= i < |l.grants| ==>
                 var g := l.grants[i];
                 && (after.grants[i] == g || after.grants[i] == g.(state := Expired))
                 && (after.grants[i].state != g.state <==> g.state == Active && g.expiresAt < now)
  {
  }

  // ----- refunds -----------------------------------------------------------------------------

  /** A grant that has ended stays as it ended, and one that has expired is never refunded. */
  lemma {:induction false} EndedStays(b: Books, steps: seq<Step>, id: nat)
    requires Orderly(b) && id < |b.ledger.grants| && b.ledger.grants[id].state != Active
    ensures var end := Run(b, steps);
            && id < |end.ledger.grants| && end.ledger.grants[id] == b.ledger.grants[id]
            && (b.ledger.grants[id].state == Expired ==> id !in end.refunded)
    decreases |steps|
  {
    if steps != [] {
      StepOrderly(b, steps[0]);
      EndedStays(Next(b, steps[0]), steps[1..], id);
    }
  }

  /** Over every run no grant is refunded twice, and only revoked ones are. */
  lemma RefundedOnce(steps: seq<Step>)
    ensures var b := Run(NEW_BOOKS, steps);
            && (forall n, m :: 0 <= n < m < |b.refunded| ==> b.refunded[n] != b.refunded[m])
            && forall n :: 0 <= n < |b.refunded| ==>
                 b.refunded[n] < |b.ledger.grants| && b.ledger.grants[b.refunded[n]].state == Revoked
  {
    NewBooks();
    Conserved(NEW_BOOKS, steps);
    hide Run, Balanced;
  }

  // ----- two requests at once ------------------------------------------------------------------

  /** The balance and the holdings of a pool together. */
  function Total(l: Ledger, month: string): real
    requires month in l.pools
  {
    l.pools[month].remaining + HeldBy(l.grants, month)
  }

  /** An award that has read the balance earlier keeps the books exactly if the balance is still that. */
  lemma AwardRaceIff(l: Ledger, a: Award, seen: real)
    requires Deducts(a) && a.pool.value in l.pools
    ensures var after := AddGrant(SetRemaining(l, a.pool.value, seen - a.cost), a);
            Total(after, a.pool.value) == Total(l, a.pool.value) <==> seen == l.pools[a.pool.value].remaining
  {
    HeldMore(l.grants, Grant(a.pool, a.cost, a.expiresAt, Active), a.pool.value);
  }

  /** A revocation that has found the grant active earlier keeps the books exactly if no other has been
      faster; a grant that has expired meanwhile is then refunded all the same. */
  lemma RevokeRaceIff(l: Ledger, id: nat)
    requires id < |l.grants| && Refunds(l.grants[id]) && l.grants[id].pool.value in l.pools
    ensures var month := l.grants[id].pool.value;
            Total(WriteRevoke(l, id, true), month) == Total(l, month) <==> l.grants[id].state != Revoked
  {
    HeldAfter(l.grants, l.grants[id].pool.value, id, l.grants[id].(state := Revoked));
  }

  /** A whole request, an award that writes from a balance read before, or a revocation that found the
      grant active before. */
  datatype Move =
    | Whole(step: Step)
    | LateAward(award: Award, seen: real)
    | LateRevoke(id: nat)

  /** The balance that was read covered the award's cost. */
  predicate Covered(l: Ledger, a: Award, seen: real) { Deducts(a) && a.pool.value in l.pools && seen >= a.cost }

  function MoveNext(b: Books, move: Move): Books {
    match move
    case Whole(step) => Next(b, step)
    case LateAward(a, seen) =>
      if Covered(b.ledger, a, seen)
      then b.(ledger := AddGrant(SetRemaining(b.ledger, a.pool.value, seen - a.cost), a))
      else b
    case LateRevoke(id) =>
      if id >= |b.ledger.grants| then b
      else
        b.(ledger := WriteRevoke(b.ledger, id, true),
           refunded := if Refunds(b.ledger.grants[id]) then b.refunded + [id] else b.refunded)
  }

  /** The balance is still what was read; no other request has revoked the grant. */
  predicate Current(b: Books, move: Move) {
    match move
    case Whole(_) => true
    case LateAward(a, seen) => Covered(b.ledger, a, seen) ==> seen == b.ledger.pools[a.pool.value].remaining
    case LateRevoke(id) =>
      id < |b.ledger.grants| && Refunds(b.ledger.grants[id]) ==> b.ledger.grants[id].state != Revoked
  }

  ghost predicate BalancedThroughout(b: Books, moves: seq<Move>)
    decreases |moves|
  {
    Balanced(b) && (moves != [] ==> BalancedThroughout(MoveNext(b, moves[0]), moves[1..]))
  }

  predicate AllCurrent(b: Books, moves: seq<Move>)
    decreases |moves|
  {
    moves != [] ==> Current(b, moves[0]) && AllCurrent(MoveNext(b, moves[0]), moves[1..])
  }

  /** An award whose balance is current is as good as a whole one. */
  lemma CurrentAward(b: Books, a: Award, seen: real)
    requires Covered(b.ledger, a, seen) && seen == b.ledger.pools[a.pool.value].remaining
    ensures MoveNext(b, LateAward(a, seen)) == Next(b, Granting(a.(beneficiaryExists := true), a.expiresAt - 1, true))
  {
  }

  lemma LateRevokeOrderly(b: Books, id: nat)
    requires Orderly(b) && Current(b, LateRevoke(id))
    ensures Orderly(MoveNext(b, LateRevoke(id)))
  {
  }

  lemma LateRevokeBalanced(b: Books, id: nat, month: string)
    requires Orderly(b) && PoolBalanced(b, month) && Current(b, LateRevoke(id))
    ensures PoolBalanced(MoveNext(b, LateRevoke(id)), month)
  {
    var grants := b.ledger.grants;
    if id < |grants| {
      HeldAfter(grants, month, id, grants[id].(state := Revoked));
    }
    hide HeldBy;
  }

  lemma CurrentKeeps(b: Books, move: Move)
    requires Orderly(b) && Balanced(b) && Current(b, move)
    ensures Orderly(MoveNext(b, move)) && Balanced(MoveNext(b, move))
  {
    hide Orderly, PoolBalanced, Next, WriteRevoke, SetRemaining;
    var step := match move
      case Whole(s) => s
      case LateAward(a, _) => Granting(a.(beneficiaryExists := true), a.expiresAt - 1, true)
      case LateRevoke(id) => Revoking(id, true);
    if move.LateRevoke? {
      LateRevokeOrderly(b, move.id);
      forall month ensures PoolBalanced(MoveNext(b, move), month) {
        LateRevokeBalanced(b, move.id, month);
      }
    } else if move.LateAward? && !Covered(b.ledger, move.award, move.seen) {
      assert MoveNext(b, move) == b;
    } else {
      if move.LateAward? {
        CurrentAward(b, move.award, move.seen);
      }
      StepOrderly(b, step);
      forall month ensures PoolBalanced(MoveNext(b, move), month) {
        StepBalanced(b, step, month);
      }
    }
  }

  lemma BalancedTotal(b: Books, month: string)
    requires PoolBalanced(b, month) && month in b.ledger.pools
    ensures month in b.credited && Total(b.ledger, month) == b.credited[month] - Of(b.lost, month)
  {
    hide HeldBy;
  }

  lemma RevokePool(b: Books, id: nat)
    requires Orderly(b) && id < |b.ledger.grants| && Refunds(b.ledger.grants[id])
    ensures var month := b.ledger.grants[id].pool.value;
            month in b.ledger.pools && month in WriteRevoke(b.ledger, id, true).pools
  {
  }

  lemma StaleBreaks(b: Books, move: Move)
    requires Orderly(b) && Balanced(b) && !Current(b, move)
    ensures !Balanced(MoveNext(b, move))
  {
    var next := MoveNext(b, move);
    var month := if move.LateAward? then move.award.pool.value else b.ledger.grants[move.id].pool.value;
    if move.LateAward? {
      AwardRaceIff(b.ledger, move.award, move.seen);
    } else {
      RevokeRaceIff(b.ledger, move.id) by {
        RevokePool(b, move.id);
      }
      RevokePool(b, move.id);
    }
    assert PoolBalanced(b, month);
    hide HeldBy, WriteRevoke, AddGrant, PoolBalanced, Orderly, Total;
    BalancedTotal(b, month);
    if PoolBalanced(next, month) {
      BalancedTotal(next, month);
    }
  }

  /** When requests overlap the books balance all along if and only if every award wrote from a balance
      that was still current, and no revocation refunded a grant that another had revoked. */
  lemma {:induction false} OverlapIff(b: Books, moves: seq<Move>)
    requires Orderly(b) && Balanced(b)
    ensures BalancedThroughout(b, moves) <==> AllCurrent(b, moves)
    decreases |moves|
  {
    hide Orderly, Balanced, Current, MoveNext;
    if moves != [] {
      var next := MoveNext(b, moves[0]);
      if Current(b, moves[0]) {
        CurrentKeeps(b, moves[0]);
        OverlapIff(next, moves[1..]);
      } else {
        StaleBreaks(b, moves[0]);
        BalancedFirst(next, moves[1..]);
      }
    }
  }

  lemma BalancedFirst(b: Books, moves: seq<Move>)
    ensures BalancedThroughout(b, moves) ==> Balanced(b)
  {
    hide Balanced, MoveNext;
  }
}
