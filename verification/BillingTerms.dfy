/** What tenants are billed, owe and are locked for, read off the tables. */
module BillingTerms {
  import opened Wrappers
  import opened Lists
  import opened Billing
  import opened BillingRuns

  // ----- what a draft bears --------------------------------------------------------------

  /** The number of SMS segments that are free: the tenant's quota, or else what its plan grants. */
  predicate FreeSegments(i: Inputs, t: Tenant, plan: string, students: nat, free: nat) {
    if t.id in i.quotas then free == i.quotas[t.id]
    else if plan == "STARTER" then free >= 100 && free >= 3 * students && (free == 100 || free == 3 * students)
    else if plan == "GROWTH" then free >= 500 && free >= 5 * students && (free == 500 || free == 5 * students)
    else if plan == "INSTITUTIONAL" then free >= 2000 && free >= 8 * students && (free == 2000 || free == 8 * students)
    else free == 0
  }

  /** The fees of a bill: the plan's base fee, the fee for its students at its rate, and the price of each
      segment beyond the free ones; a plan that is not known costs nothing by itself. */
  ghost predicate Charges(i: Inputs, t: Tenant, b: Bill) {
    && b.plan == (if t.plan == "" then "COMMUNITY" else t.plan)
    && b.students == (if t.id in i.students then i.students[t.id] else 0)
    && b.baseFee == (if b.plan in i.plans then i.plans[b.plan].baseFee else 0)
    && b.perStudentFee == (if b.plan in i.plans then i.plans[b.plan].pricePerStudent else 0)
    && b.total == b.baseFee + i.studentFee(b.students, b.perStudentFee) + b.overageCharge
    && exists free: nat :: FreeSegments(i, t, b.plan, b.students, free) &&
         b.overageCharge == if b.smsCount <= free then 0 else (b.smsCount - free) * i.overagePrice
  }

  lemma BillCharges(i: Inputs, t: Tenant, sms: nat)
    ensures Charges(i, t, BillFor(i, t, sms)) && BillFor(i, t, sms).smsCount == sms
  {
    var b := BillFor(i, t, sms);
    var free := Allowance(i, t, b.plan, b.students);
    assert FreeSegments(i, t, b.plan, b.students, free);
  }

  /** The drafts that generation leaves bear the charges of the month's inputs; a tenant that sent no SMS
      owes the base fee and the fee for its students alone. */
  lemma DraftsBear(before: seq<Invoice>, i: Inputs, tenants: seq<Tenant>, month: string, now: int, n: nat)
    requires TenantsDiffer(tenants) && n < |tenants|
    ensures var v := Find(Generate(before, i, tenants, month, now), Key(tenants[n].id, month));
            v.Some? &&
            (v.value.status == DRAFT ==>
              var b := v.value.bill;
              && Charges(i, tenants[n], b)
              && ((forall log :: log in i.smsLogs ==> log.tenantId != tenants[n].id) ==>
                    b.smsCount == 0 && b.total == b.baseFee + i.studentFee(b.students, b.perStudentFee)))
  {
    Generated(before, i, tenants, month, now, Key(tenants[n].id, month));
    BillCharges(i, tenants[n], SmsTotal(i.smsLogs, tenants[n].id));
    if forall log :: log in i.smsLogs ==> log.tenantId != tenants[n].id {
      NothingSent(i.smsLogs, tenants[n].id);
    }
    hide Generate, BillFor;
  }

  /** A further student changes the total by the difference of the fees and, as more segments are free, by what
      the overage falls. */
  lemma OneMoreStudent(before: seq<Invoice>, i: Inputs, tenants: seq<Tenant>, month: string, now: int, n: nat, k: nat)
    requires TenantsDiffer(tenants) && n < |tenants|
    ensures var t := tenants[n];
            var v := Find(Generate(before, i.(students := i.students[t.id := k]), tenants, month, now),
                          Key(t.id, month));
            var w := Find(Generate(before, i.(students := i.students[t.id := k + 1]), tenants, month, now),
                          Key(t.id, month));
            v.Some? && w.Some? &&
            (v.value.status == w.value.status == DRAFT ==>
              var b, c := v.value.bill, w.value.bill;
              && c.total - b.total == i.studentFee(k + 1, b.perStudentFee) - i.studentFee(k, b.perStudentFee)
                                      + c.overageCharge - b.overageCharge
              && (i.overagePrice >= 0 ==> c.overageCharge <= b.overageCharge))
  {
    var t := tenants[n];
    var few, more := i.(students := i.students[t.id := k]), i.(students := i.students[t.id := k + 1]);
    Generated(before, few, tenants, month, now, Key(t.id, month));
    Generated(before, more, tenants, month, now, Key(t.id, month));
    MoreIsFree(i, t, k, SmsTotal(i.smsLogs, t.id));
    hide Generate, BillFor;
  }

  lemma MoreIsFree(i: Inputs, t: Tenant, k: nat, sms: nat)
    ensures var b := BillFor(i.(students := i.students[t.id := k]), t, sms);
            var c := BillFor(i.(students := i.students[t.id := k + 1]), t, sms);
            && c.total - b.total == i.studentFee(k + 1, b.perStudentFee) - i.studentFee(k, b.perStudentFee)
                                    + c.overageCharge - b.overageCharge
            && (i.overagePrice >= 0 ==> c.overageCharge <= b.overageCharge)
  {
    var few, more := i.(students := i.students[t.id := k]), i.(students := i.students[t.id := k + 1]);
    var plan := if t.plan == "" then "COMMUNITY" else t.plan;
    var a, b := Allowance(few, t, plan, k), Allowance(more, t, plan, k + 1);
    assert a <= b;
    if i.overagePrice >= 0 {
      PriceGrows(if sms > b then sms - b else 0, if sms > a then sms - a else 0, i.overagePrice);
    }
    hide Allowance;
  }

  lemma PriceGrows(a: nat, b: nat, price: nat)
    requires a <= b
    ensures a * price <= b * price
  {
  }

  lemma {:induction false} NothingSent(logs: seq<SmsLog>, id: string)
    requires forall log :: log in logs ==> log.tenantId != id
    ensures SmsTotal(logs, id) == 0
  {
    if logs != [] {
      NothingSent(logs[..|logs| - 1], id);
    }
  }

  /** One more log adds its segments, or one if it names none, to its own tenant's draft. */
  lemma LogCounts(before: seq<Invoice>, i: Inputs, log: SmsLog, tenants: seq<Tenant>, month: string, now: int, n: nat)
    requires TenantsDiffer(tenants) && n < |tenants|
    ensures var key := Key(tenants[n].id, month);
            var v := Find(Generate(before, i, tenants, month, now), key);
            var w := Find(Generate(before, i.(smsLogs := i.smsLogs + [log]), tenants, month, now), key);
            v.Some? && w.Some? &&
            (v.value.status == w.value.status == DRAFT ==>
              w.value.bill.smsCount == v.value.bill.smsCount
                + if log.tenantId != tenants[n].id then 0 else if log.segments == 0 then 1 else log.segments)
  {
    var more := i.(smsLogs := i.smsLogs + [log]);
    assert more.smsLogs[..|i.smsLogs|] == i.smsLogs;
    Generated(before, i, tenants, month, now, Key(tenants[n].id, month));
    Generated(before, more, tenants, month, now, Key(tenants[n].id, month));
    BillCharges(i, tenants[n], SmsTotal(i.smsLogs, tenants[n].id));
    BillCharges(more, tenants[n], SmsTotal(more.smsLogs, tenants[n].id));
    hide Generate, BillFor, Charges;
  }

  lemma {:induction false} SentAppend(a: seq<SmsLog>, b: seq<SmsLog>, id: string)
    ensures SmsTotal(a + b, id) == SmsTotal(a, id) + SmsTotal(b, id)
  {
    if b == [] {
      assert a + b == a;
    } else {
      var n := |b| - 1;
      assert (a + b)[..|a + b| - 1] == a + b[..n];
      SentAppend(a, b[..n], id);
    }
  }

  lemma OneOut(b: seq<SmsLog>, k: nat)
    requires k < |b|
    ensures b == b[..k] + ([b[k]] + b[k + 1..])
    ensures multiset(b[..k] + b[k + 1..]) == multiset(b) - multiset{b[k]}
  {
    assert b == b[..k] + ([b[k]] + b[k + 1..]);
  }

  lemma SentWithout(b: seq<SmsLog>, k: nat, id: string)
    requires k < |b|
    ensures SmsTotal(b, id) == SmsTotal(b[..k] + b[k + 1..], id) + SmsTotal([b[k]], id)
  {
    hide *;
    OneOut(b, k);
    SentAppend(b[..k], b[k + 1..], id);
    SentAppend([b[k]], b[k + 1..], id);
    SentAppend(b[..k], [b[k]] + b[k + 1..], id);
  }

  lemma SameEnds(a: seq<SmsLog>, b: seq<SmsLog>) returns (k: nat)
    requires multiset(a) == multiset(b) && a != []
    ensures k < |b| && b[k] == a[|a| - 1] && multiset(b[..k] + b[k + 1..]) == multiset(a[..|a| - 1])
  {
    var n := |a| - 1;
    assert a == a[..n] + [a[n]];
    assert a[n] in multiset(b);
    k :| 0 <= k < |b| && b[k] == a[n];
    OneOut(b, k);
  }

  lemma {:induction false} SentInAnyOrder(a: seq<SmsLog>, b: seq<SmsLog>, id: string)
    requires multiset(a) == multiset(b)
    ensures SmsTotal(a, id) == SmsTotal(b, id)
  {
    hide *;
    if a == [] {
      assert |multiset(b)| == |b|;
      assert b == [];
    } else {
      var n := |a| - 1;
      var k := SameEnds(a, b);
      SentInAnyOrder(a[..n], b[..k] + b[k + 1..], id);
      SentWithout(b, k, id);
      SentWithout(a, n, id);
      assert a[..n] + a[n + 1..] == a[..n];
    }
  }

  lemma GenerateLast(before: seq<Invoice>, i: Inputs, tenants: seq<Tenant>, month: string, now: int)
    requires tenants != []
    ensures var t := tenants[|tenants| - 1];
            var key := Key(t.id, month);
            Generate(before, i, tenants, month, now)
            == WriteSnapshot(Generate(before, i, tenants[..|tenants| - 1], month, now), StatusOf(before, key), key,
                             BillOf(i, t), now)
  {
    hide WriteSnapshot, StatusOf, BillFor, SmsTotal;
  }

  lemma BillInAnyOrder(i: Inputs, logs: seq<SmsLog>, t: Tenant)
    requires multiset(logs) == multiset(i.smsLogs)
    ensures BillOf(i.(smsLogs := logs), t) == BillOf(i, t)
  {
    SentInAnyOrder(logs, i.smsLogs, t.id);
    hide SmsTotal;
  }

  /** The order of the logs does not matter. */
  lemma {:induction false} LogsInAnyOrder(before: seq<Invoice>, i: Inputs, logs: seq<SmsLog>, tenants: seq<Tenant>,
                                          month: string, now: int)
    requires multiset(logs) == multiset(i.smsLogs)
    ensures Generate(before, i.(smsLogs := logs), tenants, month, now) == Generate(before, i, tenants, month, now)
  {
    if tenants != [] {
      hide *;
      LogsInAnyOrder(before, i, logs, tenants[..|tenants| - 1], month, now);
      BillInAnyOrder(i, logs, tenants[|tenants| - 1]);
      GenerateLast(before, i, tenants, month, now);
      GenerateLast(before, i.(smsLogs := logs), tenants, month, now);
    } else {
      hide BillFor;
    }
  }

  // ----- what is owed, and the lock -----------------------------------------------------------

  const DAYS_14 := 1_209_600_000
  const DAY_LONG := 86_400_000

  /** An invoice of the tenant that is out and not paid. */
  predicate Owes(v: Invoice, tenantId: string) {
    v.key.tenantId == tenantId && v.status in {ISSUED, OVERDUE}
  }

  lemma {:induction false} OldestIs(rows: seq<Invoice>)
    requires rows != []
    ensures exists v :: v in rows && v.createdAt == Oldest(rows)
    ensures forall v :: v in rows ==> v.createdAt >= Oldest(rows)
  {
    var n := |rows| - 1;
    assert rows == rows[..n] + [rows[n]];
    assert rows[n] in rows;
    if n > 0 {
      OldestIs(rows[..n]);
      var v :| v in rows[..n] && v.createdAt == Oldest(rows[..n]);
      assert v in rows;
    }
  }

  lemma Members(rows: seq<Invoice>, t: string)
    ensures forall v :: v in Unpaid(rows, t) <==> v in rows && Owes(v, t)
  {
  }

  /** What one invoice adds to the amount owed by a tenant. */
  function Part(v: Invoice, t: string): int { if Owes(v, t) then v.bill.total else 0 }

  function Owed(rows: seq<Invoice>, t: string): int {
    if rows == [] then 0 else Part(rows[0], t) + Owed(rows[1..], t)
  }

  lemma {:induction false} AmountAppend(a: seq<Invoice>, b: seq<Invoice>)
    ensures Amount(a + b) == Amount(a) + Amount(b)
  {
    if b == [] {
      assert a + b == a;
    } else {
      var n := |b| - 1;
      assert (a + b)[..|a + b| - 1] == a + b[..n];
      AmountAppend(a, b[..n]);
    }
  }

  lemma {:induction false} OwedIs(rows: seq<Invoice>, t: string)
    ensures Amount(Unpaid(rows, t)) == Owed(rows, t)
  {
    if rows != [] {
      OwedIs(rows[1..], t);
      var first := if Owes(rows[0], t) then [rows[0]] else [];
      assert Unpaid(rows, t) == first + Unpaid(rows[1..], t);
      AmountAppend(first, Unpaid(rows[1..], t));
      assert [rows[0]][..0] == [];
      hide Filter;
    }
  }

  /** A fresh assessment, in terms of the table: an account is locked if and only if an invoice of it, out
      and unpaid, is older than fourteen days; what is left of the grace period are the full days, rounded
      up, until the first such invoice will be. */
  lemma FreshCheck(rows: seq<Invoice>, t: string, now: int)
    ensures var d := Assess(Unpaid(rows, t), now);
            && (d.hasOverdue <==> exists v :: v in rows && Owes(v, t))
            && (d.locked <==> exists v :: v in rows && Owes(v, t) && v.createdAt + DAYS_14 < now)
            && d.inGrace == (d.hasOverdue && !d.locked)
            && d.amount == Owed(rows, t) && (!d.hasOverdue ==> d.daysRemaining == 14)
            && (d.hasOverdue ==>
                 exists v :: v in rows && Owes(v, t) && v.createdAt + DAYS_14 <= now + d.daysRemaining * DAY_LONG)
            && (d.hasOverdue && d.daysRemaining > 0 ==>
                 forall v :: v in rows && Owes(v, t) ==> v.createdAt + DAYS_14 > now + (d.daysRemaining - 1) * DAY_LONG)
  {
    var unpaid := Unpaid(rows, t);
    Members(rows, t);
    OwedIs(rows, t);
    if unpaid == [] {
      hide Unpaid;
    } else {
      OldestIs(unpaid);
      var o :| o in unpaid && o.createdAt == Oldest(unpaid);
      assert unpaid[0] in unpaid;
      DaysAre(FOURTEEN_DAYS - (now - o.createdAt));
      hide Unpaid, Oldest, Amount, DaysLeft, Owes;
    }
  }

  lemma DaysAre(left: int)
    ensures left <= DaysLeft(left) * DAY_LONG
    ensures DaysLeft(left) > 0 ==> left > (DaysLeft(left) - 1) * DAY_LONG
  {
  }

  /** Over every run that starts without cached statuses a decision looks at the invoices as they are and at a
      clock that is less than a minute behind. */
  lemma DecisionIff(rows: seq<Invoice>, steps: seq<Step>, start: int, now: int, t: string)
    requires var w := World(rows, map[], [], None);
             Unraced(w, steps) && ClockRuns(steps, start) && start <= now
             && forall i :: 0 <= i < |steps| ==> steps[i].now <= now
    ensures var end := Run(World(rows, map[], [], None), steps);
            var d, asOf := Decision(end, t, now), AsOf(end, t, now);
            && now - 60_000 < asOf <= now
            && (d.hasOverdue <==> exists v :: v in end.rows && Owes(v, t))
            && (d.locked <==> exists v :: v in end.rows && Owes(v, t) && v.createdAt + DAYS_14 < asOf)
  {
    hide *;
    var w := World(rows, map[], [], None);
    NothingCached(rows, start);
    DecisionFresh(w, steps, start, now, t);
    var end := Run(w, steps);
    FreshCheck(end.rows, t, AsOf(end, t, now));
    assert LOCK_CACHE_TTL == 60_000 by { CacheTime(); }
  }

  lemma CacheTime()
    ensures LOCK_CACHE_TTL == 60_000
  {
  }

  lemma NothingCached(rows: seq<Invoice>, start: int)
    ensures CacheOk(World(rows, map[], [], None)) && Fresh(World(rows, map[], [], None), start)
  {
  }

  /** Changing one row changes the amount by its part. */
  lemma {:induction false} OwedChanged(rows: seq<Invoice>, k: nat, x: Invoice, t: string)
    requires k < |rows|
    ensures Owed(rows[k := x], t) == Owed(rows, t) - Part(rows[k], t) + Part(x, t)
  {
    if k > 0 {
      OwedChanged(rows[1..], k - 1, x, t);
      assert rows[k := x][1..] == rows[1..][k - 1 := x];
    }
  }

  /** Keys being unique, an update by key changes one row. */
  lemma OneUpdated(rows: seq<Invoice>, k: nat, p: Invoice -> bool, status: Status, now: int)
    requires UniqueKeys(rows) && k < |rows| && p(rows[k])
    requires forall v :: v in rows && p(v) ==> v.key == rows[k].key
    ensures Update(rows, p, Become(status, now)) == rows[k := rows[k].(status := status, updatedAt := now)]
  {
    hide Update;
    forall i | 0 <= i < |rows| && i != k ensures !p(rows[i]) {
      assert rows[i] in rows;
    }
    assert Become(status, now)(rows[k]) == rows[k].(status := status, updatedAt := now);
  }

  lemma StatusAt(rows: seq<Invoice>, k: nat)
    requires UniqueKeys(rows) && k < |rows|
    ensures StatusOf(rows, rows[k].key) == Some(rows[k].status)
  {
    FoundAt(rows, k);
  }

  lemma IssueRows(w: World, k: nat, now: int)
    requires UniqueKeys(w.rows) && k < |w.rows|
    ensures var v := w.rows[k];
            Next(w, Issue(v.key, now)).rows
            == if v.status != DRAFT then w.rows else w.rows[k := v.(status := ISSUED, updatedAt := now)]
  {
    StatusAt(w.rows, k);
    if w.rows[k].status == DRAFT {
      OneUpdated(w.rows, k, IsDraft(w.rows[k].key), ISSUED, now);
    }
    hide Update, UniqueKeys, StatusOf;
  }

  lemma PayRows(w: World, k: nat, now: int)
    requires UniqueKeys(w.rows) && k < |w.rows|
    ensures var v := w.rows[k];
            Next(w, Pay(v.key, now)).rows
            == if v.status !in {ISSUED, OVERDUE} then w.rows else w.rows[k := v.(status := PAID, updatedAt := now)]
  {
    StatusAt(w.rows, k);
    if w.rows[k].status in {ISSUED, OVERDUE} {
      OneUpdated(w.rows, k, HasKey(w.rows[k].key), PAID, now);
    }
    hide Update, UniqueKeys, StatusOf;
  }

  lemma {:induction false} OthersRows(rows: seq<Invoice>, k: nat, x: Invoice, t: string)
    requires k < |rows| && rows[k].key.tenantId != t && x.key.tenantId != t
    ensures Unpaid(rows[k := x], t) == Unpaid(rows, t)
  {
    if k > 0 {
      OthersRows(rows[1..], k - 1, x, t);
      assert rows[k := x][1..] == rows[1..][k - 1 := x];
    }
  }

  /** Issuing a draft raises what its tenant owes by the total of the invoice, paying an unpaid invoice lowers
      it by as much, and neither touches another tenant's account. */
  lemma IssuePay(w: World, k: nat, now: int, t: string)
    requires UniqueKeys(w.rows) && k < |w.rows|
    ensures var v := w.rows[k];
            var issued, paid := Next(w, Issue(v.key, now)).rows, Next(w, Pay(v.key, now)).rows;
            var own := if v.key.tenantId == t then v.bill.total else 0;
            && (if v.status == DRAFT then Owed(issued, t) == Owed(w.rows, t) + own else issued == w.rows)
            && (if v.status in {ISSUED, OVERDUE} then Owed(paid, t) == Owed(w.rows, t) - own else paid == w.rows)
            && (v.key.tenantId != t ==> Unpaid(issued, t) == Unpaid(w.rows, t) == Unpaid(paid, t))
  {
    hide UniqueKeys, Owed, Unpaid, Next;
    var v := w.rows[k];
    IssueRows(w, k, now);
    PayRows(w, k, now);
    OwedChanged(w.rows, k, v.(status := ISSUED, updatedAt := now), t);
    OwedChanged(w.rows, k, v.(status := PAID, updatedAt := now), t);
    if v.key.tenantId != t {
      OthersRows(w.rows, k, v.(status := ISSUED, updatedAt := now), t);
      OthersRows(w.rows, k, v.(status := PAID, updatedAt := now), t);
    }
  }

  /** The invoices bear the same bills and were created at the same times. */
  predicate SameBills(a: seq<Invoice>, b: seq<Invoice>) {
    |a| == |b| && forall i :: 0 <= i < |a| ==> a[i].bill == b[i].bill && a[i].createdAt == b[i].createdAt
  }

  lemma UnpaidCons(v: Invoice, rest: seq<Invoice>, t: string)
    ensures Unpaid([v] + rest, t) == (if Owes(v, t) then [v] else []) + Unpaid(rest, t)
  {
    FilterOne(UnpaidOf(t), v, rest);
    hide Filter;
  }

  lemma UpdateCons(v: Invoice, rest: seq<Invoice>, p: Invoice -> bool, f: Invoice -> Invoice)
    ensures Update([v] + rest, p, f) == [if p(v) then f(v) else v] + Update(rest, p, f)
  {
    assert ([v] + rest)[1..] == rest;
  }

  lemma {:induction false} Relabelled(rows: seq<Invoice>, p: Invoice -> bool, now: int, t: string)
    requires forall v :: v in rows && p(v) ==> v.status == ISSUED
    ensures SameBills(Unpaid(rows, t), Unpaid(Update(rows, p, Become(OVERDUE, now)), t))
  {
    if rows != [] {
      var f, v, rest := Become(OVERDUE, now), rows[0], rows[1..];
      assert rows == [v] + rest && v in rows;
      Relabelled(rest, p, now, t);
      UnpaidCons(v, rest, t);
      UpdateCons(v, rest, p, f);
      UnpaidCons(if p(v) then f(v) else v, Update(rest, p, f), t);
      hide Unpaid, Update;
    }
  }

  lemma {:induction false} SameAssessment(a: seq<Invoice>, b: seq<Invoice>)
    requires SameBills(a, b)
    ensures Amount(a) == Amount(b) && (a != [] ==> Oldest(a) == Oldest(b))
  {
    if a != [] {
      SameAssessment(a[..|a| - 1], b[..|b| - 1]);
    }
  }

  lemma AssessedSame(a: seq<Invoice>, b: seq<Invoice>, at: int)
    requires SameBills(a, b)
    ensures Assess(a, at) == Assess(b, at)
  {
    SameAssessment(a, b);
    hide Oldest, Amount, DaysLeft;
  }

  lemma MovedRows(w: World, now: int)
    ensures Next(w, MoveToOverdue(now)).rows
         == if w.pending == [] then w.rows else Update(w.rows, KeyIn(w.pending), Become(OVERDUE, now))
  {
    hide Update;
  }

  lemma PendingIssued(w: World, v: Invoice)
    ensures KeyIn(w.pending)(v) <==> v.key in w.pending
  {
  }

  /** The overdue job changes nobody's lock, amount or days left, as long as what it moves is still issued. */
  lemma OverdueKeepsLocks(w: World, now: int, t: string, at: int)
    requires forall v :: v in w.rows && v.key in w.pending ==> v.status == ISSUED
    ensures Assess(Unpaid(Next(w, MoveToOverdue(now)).rows, t), at) == Assess(Unpaid(w.rows, t), at)
  {
    hide *;
    MovedRows(w, now);
    forall v | v in w.rows && KeyIn(w.pending)(v) ensures v.status == ISSUED {
      PendingIssued(w, v);
    }
    Relabelled(w.rows, KeyIn(w.pending), now, t);
    AssessedSame(Unpaid(w.rows, t), Unpaid(Update(w.rows, KeyIn(w.pending), Become(OVERDUE, now)), t), at);
  }
}
