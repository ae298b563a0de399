/** Billing snapshots: their nightly generation, their way from draft to paid, and the lock status that
    is derived from them and cached. */
module Billing {
  import opened Wrappers
  import opened Lists

  datatype Status = DRAFT | ISSUED | OVERDUE | PAID

  /** A snapshot is identified by its tenant and month, which the table keeps unique. */
  datatype Key = Key(tenantId: string, month: string)

  /** What is billed. */
  datatype Bill = Bill(plan: string, students: nat, baseFee: int, perStudentFee: int, smsCount: nat, overageCharge: int,
                       total: int)

  datatype Invoice = Invoice(key: Key, bill: Bill, status: Status, createdAt: int, updatedAt: int)

  // ----- reading whole tables -------------------------------------------------------

  const PAGE_SIZE := 1000

  /** `fetchAllRows`: pages of a thousand until one comes short; None when a needed page fails, the first
      `answered` being the pages that do not. */
  method FetchAllRows<T>(rows: seq<T>, answered: nat) returns (all: Option<seq<T>>)
    ensures all == if answered > |rows| / 1000 then Some(rows) else None
  {
    var from := 0;
    var collected: seq<T> := [];
    var n := 0;
    while true
      invariant from == n * PAGE_SIZE && n <= answered && from <= |rows| && collected == rows[..from]
      invariant |rows| / PAGE_SIZE >= n
      decreases |rows| - from
    {
      if n == answered {
        return None;
      }
      var data := Take(PAGE_SIZE, Drop(from, rows));
      assert rows[..from] + data == Take(from + PAGE_SIZE, rows);
      assert |data| < PAGE_SIZE ==> |rows| / PAGE_SIZE == n;
      n := n + 1;
      if data == [] {
        break;
      }
      collected := collected + data;
      if |data| < PAGE_SIZE {
        break;
      }
      from := from + PAGE_SIZE;
    }
    assert collected == rows;
    return Some(collected);
  }

  // ----- what a tenant is billed ------------------------------------------------------

  datatype Plan = Plan(baseFee: int, pricePerStudent: int)

  datatype Tenant = Tenant(id: string, plan: string)

  datatype SmsLog = SmsLog(tenantId: string, segments: nat)

  /** The month's inputs; `studentFee` is the volume-discounted fee for a number of students at a rate. */
  datatype Inputs = Inputs(plans: map<string, Plan>, students: map<string, nat>, smsLogs: seq<SmsLog>,
                           quotas: map<string, nat>, overagePrice: int, studentFee: (nat, int) -> int)

  function Segments(log: SmsLog): nat { if log.segments == 0 then 1 else log.segments }

  /** The segments a tenant sent. */
  function SmsTotal(logs: seq<SmsLog>, tenantId: string): nat {
    if logs == [] then 0
    else
      var last := logs[|logs| - 1];
      SmsTotal(logs[..|logs| - 1], tenantId) + if last.tenantId == tenantId then Segments(last) else 0
  }

  function AtLeast(n: nat, floor: nat): nat { if n < floor then floor else n }

  function Allowance(i: Inputs, t: Tenant, planCode: string, students: nat): nat {
    if t.id in i.quotas then i.quotas[t.id]
    else if planCode == "STARTER" then AtLeast(students * 3, 100)
    else if planCode == "GROWTH" then AtLeast(students * 5, 500)
    else if planCode == "INSTITUTIONAL" then AtLeast(students * 8, 2000)
    else 0
  }

  function BillFor(i: Inputs, t: Tenant, smsTotal: nat): Bill {
    var planCode := if t.plan == "" then "COMMUNITY" else t.plan;
    var plan := if planCode in i.plans then i.plans[planCode] else Plan(0, 0);
    var students := if t.id in i.students then i.students[t.id] else 0;
    var allowance := Allowance(i, t, planCode, students);
    var charge := (if smsTotal > allowance then smsTotal - allowance else 0) * i.overagePrice;
    Bill(planCode, students, plan.baseFee, plan.pricePerStudent, smsTotal, charge,
         plan.baseFee + i.studentFee(students, plan.pricePerStudent) + charge)
  }

  /** Another segment is charged the overage price exactly if the allowance is used up, and changes nothing
      else that is owed. */
  lemma OneMoreSegment(i: Inputs, t: Tenant, smsTotal: nat)
    ensures var before, after := BillFor(i, t, smsTotal), BillFor(i, t, smsTotal + 1);
            && after.total - before.total
               == (if smsTotal < Allowance(i, t, before.plan, before.students) then 0 else i.overagePrice)
            && after.total - after.overageCharge == before.total - before.overageCharge
            && (smsTotal <= Allowance(i, t, before.plan, before.students) ==> before.overageCharge == 0)
  {
    var b := BillFor(i, t, smsTotal);
    var over := smsTotal - Allowance(i, t, b.plan, b.students);
    assert (over + 1) * i.overagePrice == over * i.overagePrice + i.overagePrice;
  }

  // ----- the table -----------------------------------------------------------------------

  function Find(rows: seq<Invoice>, key: Key): (v: Option<Invoice>)
    ensures v.Some? ==> v.value.key == key
  {
    if rows == [] then None
    else if rows[0].key == key then Some(rows[0])
    else Find(rows[1..], key)
  }

  function StatusOf(rows: seq<Invoice>, key: Key): Option<Status> {
    match Find(rows, key) case Some(v) => Some(v.status) case None => None
  }

  /** An `update` with a condition. */
  function Update(rows: seq<Invoice>, p: Invoice -> bool, f: Invoice -> Invoice): (r: seq<Invoice>)
    ensures |r| == |rows|
    ensures forall i :: 0 <= i < |rows| ==> r[i] == if p(rows[i]) then f(rows[i]) else rows[i]
  {
    if rows == [] then [] else [if p(rows[0]) then f(rows[0]) else rows[0]] + Update(rows[1..], p, f)
  }

  function IsDraft(key: Key): Invoice -> bool { (v: Invoice) => v.key == key && v.status == DRAFT }

  function HasKey(key: Key): Invoice -> bool { (v: Invoice) => v.key == key }

  function Rebill(bill: Bill, now: int): Invoice -> Invoice { (v: Invoice) => v.(bill := bill, updatedAt := now) }

  function Become(status: Status, now: int): Invoice -> Invoice {
    (v: Invoice) => v.(status := status, updatedAt := now)
  }

  /** What generation writes for one tenant, given the status it read for the month beforehand: a draft is
      updated if it still is one, a missing snapshot is inserted unless the key is taken by now. */
  function WriteSnapshot(rows: seq<Invoice>, seen: Option<Status>, key: Key, bill: Bill, now: int): seq<Invoice> {
    match seen
    case Some(DRAFT) => Update(rows, IsDraft(key), Rebill(bill, now))
    case Some(_) => rows
    case None => if StatusOf(rows, key).Some? then rows else rows + [Invoice(key, bill, DRAFT, now, now)]
  }

  /** Generation for the first tenants of a list, against the statuses in `before`. */
  function Generate(before: seq<Invoice>, i: Inputs, tenants: seq<Tenant>, month: string, now: int): seq<Invoice> {
    if tenants == [] then before
    else
      var t := tenants[|tenants| - 1];
      WriteSnapshot(Generate(before, i, tenants[..|tenants| - 1], month, now), StatusOf(before, Key(t.id, month)),
                    Key(t.id, month), BillFor(i, t, SmsTotal(i.smsLogs, t.id)), now)
  }

  const FOURTEEN_DAYS := 14 * 24 * 60 * 60 * 1000
  const DAY := 24 * 60 * 60 * 1000

  predicate Expired(v: Invoice, now: int) { v.status == ISSUED && v.updatedAt < now - FOURTEEN_DAYS }

  // ----- the lock status ------------------------------------------------------------------

  datatype LockStatus = LockStatus(hasOverdue: bool, inGrace: bool, locked: bool, daysRemaining: nat, amount: int)

  function UnpaidOf(tenantId: string): Invoice -> bool {
    (v: Invoice) => v.key.tenantId == tenantId && (v.status == OVERDUE || v.status == ISSUED)
  }

  function Unpaid(rows: seq<Invoice>, tenantId: string): seq<Invoice> { Filter(UnpaidOf(tenantId), rows) }

  function Amount(rows: seq<Invoice>): int {
    if rows == [] then 0 else Amount(rows[..|rows| - 1]) + rows[|rows| - 1].bill.total
  }

  function Oldest(rows: seq<Invoice>): int
    requires rows != []
  {
    var last := rows[|rows| - 1].createdAt;
    if |rows| == 1 then last
    else
      var before := Oldest(rows[..|rows| - 1]);
      if last < before then last else before
  }

  /** Full days, rounded up, that are left of the grace period. */
  function DaysLeft(left: int): nat { if left <= 0 then 0 else (left + DAY - 1) / DAY }

  const GOOD_STANDING := LockStatus(false, false, false, 14, 0)

  /** The status computed from a tenant's unpaid invoices. */
  function Assess(unpaid: seq<Invoice>, now: int): LockStatus {
    if unpaid == [] then GOOD_STANDING
    else
      var elapsed := now - Oldest(unpaid);
      var inGrace := elapsed <= FOURTEEN_DAYS;
      LockStatus(true, inGrace, !inGrace, DaysLeft(FOURTEEN_DAYS - elapsed), Amount(unpaid))
  }

  const LOCK_CACHE_TTL := 60_000

  datatype Cached = Cached(status: LockStatus, expiresAt: int)

  // ----- the service -------------------------------------------------------------------------

  datatype Failure = NotFound | NotDraft | StillDraft

  class BillingService {
    var invoices: seq<Invoice>
    var lockCache: map<string, Cached>

    constructor ()
      ensures invoices == [] && lockCache == map[]
    {
      invoices, lockCache := [], map[];
    }

    /** `generateBillingSnapshots`. */
    method GenerateBillingSnapshots(i: Inputs, tenants: seq<Tenant>, month: string, now: int)
      modifies this`invoices
      ensures invoices == Generate(old(invoices), i, tenants, month, now)
    {
      var smsCount: map<string, nat> := map[];
      assert i.smsLogs[..0] == [];
      for k := 0 to |i.smsLogs|
        invariant forall t :: SmsTotal(i.smsLogs[..k], t) == if t in smsCount then smsCount[t] else 0
      {
        var log := i.smsLogs[k];
        assert i.smsLogs[..k + 1][..k] == i.smsLogs[..k];
        smsCount :=
          smsCount[log.tenantId := (if log.tenantId in smsCount then smsCount[log.tenantId] else 0) + Segments(log)];
      }
      assert i.smsLogs[..|i.smsLogs|] == i.smsLogs;
      var existing := invoices;
      for k := 0 to |tenants|
        invariant invoices == Generate(existing, i, tenants[..k], month, now)
      {
        var t := tenants[k];
        assert tenants[..k + 1][..k] == tenants[..k];
        var bill := BillFor(i, t, if t.id in smsCount then smsCount[t.id] else 0);
        var key := Key(t.id, month);
        var seen := StatusOf(existing, key);
        if seen.Some? {
          if seen.value != DRAFT {
            continue;
          }
          invoices := Update(invoices, IsDraft(key), Rebill(bill, now));
        } else if StatusOf(invoices, key).None? {
          invoices := invoices + [Invoice(key, bill, DRAFT, now, now)];
        }
      }
      assert tenants[..|tenants|] == tenants;
    }

    /** `checkTenantInvoiceStatus`. */
    method CheckTenantInvoiceStatus(tenantId: string, now: int) returns (status: LockStatus)
      modifies this`lockCache
      ensures var cached := tenantId in old(lockCache) && old(lockCache)[tenantId].expiresAt > now;
              && status == (if cached then old(lockCache)[tenantId].status else Assess(Unpaid(invoices, tenantId), now))
              && lockCache == if cached then old(lockCache)
                 else old(lockCache)[tenantId := Cached(status, now + LOCK_CACHE_TTL)]
    {
      if tenantId in lockCache && lockCache[tenantId].expiresAt > now {
        return lockCache[tenantId].status;
      }
      var overdue := Unpaid(invoices, tenantId);
      if overdue == [] {
        status := GOOD_STANDING;
        lockCache := lockCache[tenantId := Cached(status, now + LOCK_CACHE_TTL)];
        return;
      }
      var totalOverdue, oldest := 0, overdue[0].createdAt;
      for k := 0 to |overdue|
        invariant totalOverdue == Amount(overdue[..k])
        invariant oldest == if k == 0 then overdue[0].createdAt else Oldest(overdue[..k])
      {
        assert overdue[..k + 1][..k] == overdue[..k];
        totalOverdue := totalOverdue + overdue[k].bill.total;
        if overdue[k].createdAt < oldest {
          oldest := overdue[k].createdAt;
        }
      }
      assert overdue[..|overdue|] == overdue;
      var elapsed := now - oldest;
      var inGrace := elapsed <= FOURTEEN_DAYS;
      status := LockStatus(true, inGrace, !inGrace, DaysLeft(FOURTEEN_DAYS - elapsed), totalOverdue);
      lockCache := lockCache[tenantId := Cached(status, now + LOCK_CACHE_TTL)];
    }

    /** `issueInvoice`. */
    method IssueInvoice(key: Key, now: int) returns (failure: Option<Failure>)
      modifies this
      ensures var seen := StatusOf(old(invoices), key);
              failure == if seen.None? then Some(NotFound) else if seen != Some(DRAFT) then Some(NotDraft) else None
      ensures failure.Some? ==> invoices == old(invoices) && lockCache == old(lockCache)
      ensures failure.None? ==> invoices == Update(old(invoices), IsDraft(key), Become(ISSUED, now))
                                && lockCache == old(lockCache) - {key.tenantId}
    {
      var seen := StatusOf(invoices, key);
      if seen.None? {
        return Some(NotFound);
      }
      if seen.value != DRAFT {
        return Some(NotDraft);
      }
      invoices := Update(invoices, IsDraft(key), Become(ISSUED, now));
      lockCache := lockCache - {key.tenantId};
      return None;
    }

    /** `markInvoicePaid`. */
    method MarkInvoicePaid(key: Key, now: int) returns (failure: Option<Failure>)
      modifies this
      ensures var seen := StatusOf(old(invoices), key);
              failure == if seen.None? then Some(NotFound) else if seen == Some(DRAFT) then Some(StillDraft) else None
      ensures failure.Some? || StatusOf(old(invoices), key) == Some(PAID) ==>
                invoices == old(invoices) && lockCache == old(lockCache)
      ensures failure.None? && StatusOf(old(invoices), key) != Some(PAID) ==>
                invoices == Update(old(invoices), HasKey(key), Become(PAID, now)) &&
                  lockCache == old(lockCache) - {key.tenantId}
    {
      var seen := StatusOf(invoices, key);
      if seen.None? {
        return Some(NotFound);
      }
      if seen.value == PAID {
        return None;
      }
      if seen.value == DRAFT {
        return Some(StillDraft);
      }
      invoices := Update(invoices, HasKey(key), Become(PAID, now));
      lockCache := lockCache - {key.tenantId};
      return None;
    }

    /** The first half of `processOverdueInvoices`. */
    method FetchOverdue(now: int) returns (keys: seq<Key>)
      ensures forall k :: k in keys <==>
                exists n :: 0 <= n < |invoices| && invoices[n].key == k && invoices[n].status == ISSUED
                            && invoices[n].updatedAt + 1_209_600_000 < now
    {
      keys := [];
      for n := 0 to |invoices|
        invariant forall k :: k in keys <==> exists m :: 0 <= m < n && invoices[m].key == k && Expired(invoices[m], now)
      {
        if Expired(invoices[n], now) {
          keys := keys + [invoices[n].key];
        }
      }
    }

    /** Its second half, which updates by key alone. */
    method MoveToOverdue(keys: seq<Key>, now: int)
      modifies this
      ensures invoices == Update(old(invoices), (v: Invoice) => v.key in keys, Become(OVERDUE, now))
      ensures lockCache == if keys == [] then old(lockCache) else map[]
    {
      invoices := Update(invoices, (v: Invoice) => v.key in keys, Become(OVERDUE, now));
      if keys != [] {
        lockCache := map[];
      }
    }
  }
}
