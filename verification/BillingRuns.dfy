/** What holds of the snapshots and of the cached lock status over every run of the billing steps. */
module BillingRuns {
  import opened Wrappers
  import opened Lists
  import opened Billing

  /** The table, the lock cache, the keys that an overdue job has read and not yet moved, and the
      unpaid invoices that a status check has read and not yet assessed. */
  datatype World = World(rows: seq<Invoice>, cache: map<string, Cached>, pending: seq<Key>,
                         read: Option<(string, seq<Invoice>)>)

  /** Jobs and checks that read first and write later are two steps each; `Snapshot` is what generation
      writes for one tenant after it has read `seen`, at any earlier time. */
  datatype Step =
    | Snapshot(seen: Option<Status>, key: Key, bill: Bill, now: int)
    | Issue(key: Key, now: int)
    | Pay(key: Key, now: int)
    | FetchOverdue(keys: seq<Key>, now: int)
    | MoveToOverdue(now: int)
    | Check(tenantId: string, now: int)
    | Query(tenantId: string, now: int)
    | Finish(now: int)

  function KeyIn(keys: seq<Key>): Invoice -> bool { (v: Invoice) => v.key in keys }

  predicate Payable(s: Option<Status>) { s == Some(ISSUED) || s == Some(OVERDUE) }

  function Remember(w: World, tenantId: string, status: LockStatus, now: int): World {
    w.(cache := w.cache[tenantId := Cached(status, now + LOCK_CACHE_TTL)])
  }

  function Next(w: World, step: Step): World {
    match step
    case Snapshot(_, _, _, _) => w.(rows := WriteSnapshot(w.rows, step.seen, step.key, step.bill, step.now))
    case Issue(_, _) =>
      if StatusOf(w.rows, step.key) != Some(DRAFT) then w
      else w.(rows := Update(w.rows, IsDraft(step.key), Become(ISSUED, step.now)),
              cache := w.cache - {step.key.tenantId})
    case Pay(_, _) =>
      if !Payable(StatusOf(w.rows, step.key)) then w
      else w.(rows := Update(w.rows, HasKey(step.key), Become(PAID, step.now)), cache := w.cache - {step.key.tenantId})
    case FetchOverdue(_, _) => w.(pending := step.keys)
    case MoveToOverdue(_) =>
      if w.pending == [] then w
      else w.(rows := Update(w.rows, KeyIn(w.pending), Become(OVERDUE, step.now)), cache := map[], pending := [])
    case Check(_, _) =>
      if step.tenantId in w.cache && w.cache[step.tenantId].expiresAt > step.now then w
      else Remember(w, step.tenantId, Assess(Unpaid(w.rows, step.tenantId), step.now), step.now)
    case Query(_, _) => w.(read := Some((step.tenantId, Unpaid(w.rows, step.tenantId))))
    case Finish(_) =>
      if w.read.None? then w
      else Remember(w, w.read.value.0, Assess(w.read.value.1, step.now), step.now).(read := None)
  }

  /** An overdue job reads invoices that are issued and expired. */
  predicate Enabled(w: World, step: Step) {
    step.FetchOverdue? ==> forall k :: k in step.keys ==>
      Find(w.rows, k).Some? && Expired(Find(w.rows, k).value, step.now)
  }

  predicate Runs(w: World, steps: seq<Step>)
    decreases |steps|
  {
    steps == [] || (Enabled(w, steps[0]) && Runs(Next(w, steps[0]), steps[1..]))
  }

  function Run(w: World, steps: seq<Step>): World
    decreases |steps|
  {
    if steps == [] then w else Run(Next(w, steps[0]), steps[1..])
  }

  // ----- finding after updating -------------------------------------------------------

  predicate KeepsKey(f: Invoice -> Invoice, v: Invoice) { f(v).key == v.key }

  lemma {:induction false} FindUpdate(rows: seq<Invoice>, p: Invoice -> bool, f: Invoice -> Invoice, key: Key)
    requires forall i :: 0 <= i < |rows| ==> KeepsKey(f, rows[i])
    ensures Find(Update(rows, p, f), key)
         == match Find(rows, key) case None => None case Some(v) => Some(if p(v) then f(v) else v)
  {
    if rows != [] {
      assert KeepsKey(f, rows[0]);
      FindUpdate(rows[1..], p, f, key);
    }
  }

  lemma {:induction false} FindAppend(rows: seq<Invoice>, v: Invoice, key: Key)
    ensures Find(rows + [v], key)
            == if Find(rows, key).Some? then Find(rows, key) else if v.key == key then Some(v) else None
  {
    if rows != [] {
      assert (rows + [v])[1..] == rows[1..] + [v];
      FindAppend(rows[1..], v, key);
    } else {
      assert [v][1..] == [] && rows + [v] == [v];
    }
  }

  /** What a step makes of the row of a key, if there is one. */
  function RowNext(w: World, step: Step, key: Key): Option<Invoice> {
    var v := Find(w.rows, key);
    if v.None? then
      if step.Snapshot? && step.key == key && step.seen.None?
      then Some(Invoice(key, step.bill, DRAFT, step.now, step.now)) else None
    else if step.Snapshot? && step.key == key && step.seen == Some(DRAFT) && v.value.status == DRAFT then
      Some(v.value.(bill := step.bill, updatedAt := step.now))
    else if step.Issue? && step.key == key && v.value.status == DRAFT
    then Some(v.value.(status := ISSUED, updatedAt := step.now))
    else if step.Pay? && step.key == key && Payable(Some(v.value.status)) then
      Some(v.value.(status := PAID, updatedAt := step.now))
    else if step.MoveToOverdue? && key in w.pending then Some(v.value.(status := OVERDUE, updatedAt := step.now))
    else v
  }

  lemma FindNext(w: World, step: Step, key: Key)
    ensures Find(Next(w, step).rows, key) == RowNext(w, step, key)
  {
    if step.Snapshot? {
      FindUpdate(w.rows, IsDraft(step.key), Rebill(step.bill, step.now), key);
      FindAppend(w.rows, Invoice(step.key, step.bill, DRAFT, step.now, step.now), key);
    } else if step.Issue? {
      FindUpdate(w.rows, IsDraft(step.key), Become(ISSUED, step.now), key);
    } else if step.Pay? {
      FindUpdate(w.rows, HasKey(step.key), Become(PAID, step.now), key);
    } else if step.MoveToOverdue? {
      FindUpdate(w.rows, KeyIn(w.pending), Become(OVERDUE, step.now), key);
    }
  }

  // ----- finalised amounts ---------------------------------------------------------------

  /** Whatever is interleaved with whatever, the bill of an invoice that is no draft never changes, and the
      invoice never becomes a draft again or disappears. */
  lemma {:induction false} Frozen(w: World, steps: seq<Step>, key: Key)
    requires Find(w.rows, key).Some? && Find(w.rows, key).value.status != DRAFT
    ensures var v, end := Find(w.rows, key).value, Find(Run(w, steps).rows, key);
            end.Some? && end.value.status != DRAFT && end.value.bill == v.bill && end.value.createdAt == v.createdAt
    decreases |steps|
  {
    if steps != [] {
      FindNext(w, steps[0], key);
      Frozen(Next(w, steps[0]), steps[1..], key);
    }
  }

  predicate UniqueKeys(rows: seq<Invoice>) {
    forall i, j :: 0 <= i < j < |rows| ==> rows[i].key != rows[j].key
  }

  lemma {:induction false} NotFound(rows: seq<Invoice>, key: Key)
    requires Find(rows, key).None?
    ensures forall i :: 0 <= i < |rows| ==> rows[i].key != key
  {
    if rows != [] {
      NotFound(rows[1..], key);
    }
  }

  lemma StepUnique(w: World, step: Step)
    requires UniqueKeys(w.rows)
    ensures UniqueKeys(Next(w, step).rows)
  {
    hide Find, Unpaid, Assess;
    if step.Snapshot? && step.seen.None? && StatusOf(w.rows, step.key).None? {
      NotFound(w.rows, step.key);
    }
  }

  /** There is never more than one snapshot for a tenant and a month. */
  lemma {:induction false} OneSnapshot(w: World, steps: seq<Step>)
    requires UniqueKeys(w.rows)
    ensures UniqueKeys(Run(w, steps).rows)
    decreases |steps|
  {
    if steps != [] {
      StepUnique(w, steps[0]);
      OneSnapshot(Next(w, steps[0]), steps[1..]);
    }
  }

  // ----- the way from draft to paid ---------------------------------------------------------

  function Rank(s: Option<Status>): nat {
    match s case None => 0 case Some(DRAFT) => 1 case Some(ISSUED) => 2 case Some(OVERDUE) => 3 case Some(PAID) => 4
  }

  /** Stay, or go one step on; overdue may be skipped, being issued may not. */
  predicate Moves(a: Option<Status>, b: Option<Status>) {
    a == b || Rank(b) == Rank(a) + 1 || (a == Some(ISSUED) && b == Some(PAID))
  }

  predicate PendingKnown(w: World) {
    forall k :: k in w.pending ==> StatusOf(w.rows, k) !in {None, Some(DRAFT)}
  }

  /** Every step moves every invoice forward, but for one case: the second half of an overdue job takes an
      invoice back that was paid after its first half had read it. */
  lemma StepMoves(w: World, step: Step, key: Key)
    requires PendingKnown(w) && Enabled(w, step)
    ensures PendingKnown(Next(w, step))
    ensures Moves(StatusOf(w.rows, key), StatusOf(Next(w, step).rows, key))
            <==> !(step.MoveToOverdue? && key in w.pending && StatusOf(w.rows, key) == Some(PAID))
  {
    FindNext(w, step, key);
    forall k | k in Next(w, step).pending ensures StatusOf(Next(w, step).rows, k) !in {None, Some(DRAFT)} {
      FindNext(w, step, k);
    }
  }

  /** No overdue job of the run moves an invoice that is paid by then. */
  predicate NonePaidMeanwhile(w: World, steps: seq<Step>)
    decreases |steps|
  {
    steps == [] ||
    ((steps[0].MoveToOverdue? ==> forall k :: k in w.pending ==> StatusOf(w.rows, k) != Some(PAID))
     && NonePaidMeanwhile(Next(w, steps[0]), steps[1..]))
  }

  lemma {:induction false} NeverBack(w: World, steps: seq<Step>, key: Key)
    requires PendingKnown(w) && Runs(w, steps) && NonePaidMeanwhile(w, steps)
    ensures Rank(StatusOf(w.rows, key)) <= Rank(StatusOf(Run(w, steps).rows, key))
    decreases |steps|
  {
    if steps != [] {
      StepMoves(w, steps[0], key);
      NeverBack(Next(w, steps[0]), steps[1..], key);
    }
  }

  /** A payment between the two halves of an overdue job is undone by the second. */
  lemma PaymentUndone(w: World, key: Key, now: int)
    requires Find(w.rows, key).Some? && Expired(Find(w.rows, key).value, now)
    ensures var steps := [FetchOverdue([key], now), Pay(key, now), MoveToOverdue(now)];
            Runs(w, steps) && StatusOf(Run(w, steps).rows, key) == Some(OVERDUE)
  {
    var a := Next(w, FetchOverdue([key], now));
    var b := Next(a, Pay(key, now));
    FindNext(w, FetchOverdue([key], now), key);
    FindNext(a, Pay(key, now), key);
    FindNext(b, MoveToOverdue(now), key);
    assert b.pending == [key];
    hide Find, Update;
    RunThree(w, FetchOverdue([key], now), Pay(key, now), MoveToOverdue(now));
  }

  lemma RunThree(w: World, a: Step, b: Step, c: Step)
    ensures Run(w, [a, b, c]) == Next(Next(Next(w, a), b), c)
    ensures Runs(w, [a, b, c]) <==> Enabled(w, a) && Enabled(Next(w, a), b) && Enabled(Next(Next(w, a), b), c)
  {
    hide Next, Enabled;
    var s := [a, b, c];
    assert s[1..] == [b, c] && [b, c][1..] == [c] && [c][1..] == [];
    assert Run(Next(Next(w, a), b), [c]) == Next(Next(Next(w, a), b), c);
    assert Runs(Next(Next(w, a), b), [c]) == Enabled(Next(Next(w, a), b), c);
  }

  // ----- generating again ---------------------------------------------------------------------

  /** Equal but for the update times of drafts. */
  predicate SameButTimes(a: seq<Invoice>, b: seq<Invoice>) {
    |a| == |b| && forall i :: 0 <= i < |a| ==>
      a[i] == b[i] || (a[i].status == DRAFT && b[i] == a[i].(updatedAt := b[i].updatedAt))
  }

  predicate TenantsDiffer(tenants: seq<Tenant>) {
    forall i, j :: 0 <= i < j < |tenants| ==> tenants[i].id != tenants[j].id
  }

  function BillOf(i: Inputs, t: Tenant): Bill { BillFor(i, t, SmsTotal(i.smsLogs, t.id)) }

  /** What writing one snapshot makes of a row. */
  lemma FindWritten(rows: seq<Invoice>, seen: Option<Status>, key: Key, bill: Bill, now: int, other: Key)
    ensures other != key ==> Find(WriteSnapshot(rows, seen, key, bill, now), other) == Find(rows, other)
    ensures seen == StatusOf(rows, key) ==>
              var v := Find(WriteSnapshot(rows, seen, key, bill, now), key);
              v.Some? && (v.value.status == DRAFT ==> v.value.bill == bill)
  {
    FindUpdate(rows, IsDraft(key), Rebill(bill, now), other);
    FindUpdate(rows, IsDraft(key), Rebill(bill, now), key);
    FindAppend(rows, Invoice(key, bill, DRAFT, now, now), other);
    FindAppend(rows, Invoice(key, bill, DRAFT, now, now), key);
  }

  /** After generation every draft of its tenants bears the current bill, and no other row is touched. */
  lemma {:induction false} Generated(before: seq<Invoice>, i: Inputs, tenants: seq<Tenant>, month: string, now: int,
                                     key: Key)
    requires TenantsDiffer(tenants)
    ensures var v := Find(Generate(before, i, tenants, month, now), key);
            && (forall n :: 0 <= n < |tenants| && key == Key(tenants[n].id, month) ==>
                  v.Some? && (v.value.status == DRAFT ==> v.value.bill == BillOf(i, tenants[n])))
            && ((forall n :: 0 <= n < |tenants| ==> key != Key(tenants[n].id, month)) ==> v == Find(before, key))
  {
    if tenants != [] {
      var n := |tenants| - 1;
      var rest, t := tenants[..n], tenants[n];
      assert forall k :: 0 <= k < n ==> rest[k] == tenants[k];
      Generated(before, i, rest, month, now, key);
      Generated(before, i, rest, month, now, Key(t.id, month));
      FindWritten(Generate(before, i, rest, month, now), StatusOf(before, Key(t.id, month)), Key(t.id, month),
        BillOf(i, t), now, key);
    }
  }

  lemma Rewritten(rows: seq<Invoice>, like: seq<Invoice>, seen: Option<Status>, key: Key, bill: Bill, now: int)
    requires SameButTimes(like, rows) && seen.Some?
    requires forall k :: 0 <= k < |like| && like[k].key == key && like[k].status == DRAFT ==> like[k].bill == bill
    ensures SameButTimes(like, WriteSnapshot(rows, seen, key, bill, now))
  {
  }

  lemma {:induction false} FoundAt(rows: seq<Invoice>, k: nat)
    requires UniqueKeys(rows) && k < |rows|
    ensures Find(rows, rows[k].key) == Some(rows[k])
  {
    if k > 0 {
      FoundAt(rows[1..], k - 1);
    }
  }

  /** Generating again from the same inputs changes nothing but update times of drafts. */
  lemma {:induction false} GenerateAgain(rows: seq<Invoice>, i: Inputs, tenants: seq<Tenant>, month: string, now: int)
    requires UniqueKeys(rows)
    requires forall n :: 0 <= n < |tenants| ==>
               var v := Find(rows, Key(tenants[n].id, month));
               v.Some? && (v.value.status == DRAFT ==> v.value.bill == BillOf(i, tenants[n]))
    ensures SameButTimes(rows, Generate(rows, i, tenants, month, now))
  {
    if tenants != [] {
      var n := |tenants| - 1;
      var rest, t := tenants[..n], tenants[n];
      assert forall k :: 0 <= k < n ==> rest[k] == tenants[k];
      GenerateAgain(rows, i, rest, month, now);
      var key := Key(t.id, month);
      forall k | 0 <= k < |rows| && rows[k].key == key && rows[k].status == DRAFT ensures rows[k].bill == BillOf(i, t) {
        FoundAt(rows, k);
      }
      Rewritten(Generate(rows, i, rest, month, now), rows, StatusOf(rows, key), key, BillOf(i, t), now);
    }
  }

  /** Generation without the table's unique constraint: a snapshot that was missing is inserted unchecked. */
  function GenerateFreely(before: seq<Invoice>, i: Inputs, tenants: seq<Tenant>, month: string,
                          now: int): seq<Invoice> {
    if tenants == [] then before
    else
      var t := tenants[|tenants| - 1];
      var rows, key := GenerateFreely(before, i, tenants[..|tenants| - 1], month, now), Key(t.id, month);
      if StatusOf(before, key).None? then rows + [Invoice(key, BillOf(i, t), DRAFT, now, now)]
      else WriteSnapshot(rows, StatusOf(before, key), key, BillOf(i, t), now)
  }

  /** A run of generation that nothing interrupts never meets the constraint: what it read beforehand is
      enough to keep one snapshot for each tenant and month. */
  lemma {:induction false} ConstraintIdle(before: seq<Invoice>, i: Inputs, tenants: seq<Tenant>, month: string,
                                          now: int)
    requires TenantsDiffer(tenants)
    ensures GenerateFreely(before, i, tenants, month, now) == Generate(before, i, tenants, month, now)
    ensures UniqueKeys(before) ==> UniqueKeys(GenerateFreely(before, i, tenants, month, now))
  {
    if tenants != [] {
      var n := |tenants| - 1;
      var rest, key := tenants[..n], Key(tenants[n].id, month);
      assert forall k :: 0 <= k < n ==> rest[k] == tenants[k];
      ConstraintIdle(before, i, rest, month, now);
      Generated(before, i, rest, month, now, key);
    }
    if UniqueKeys(before) {
      GenerateUnique(before, i, tenants, month, now);
    }
  }

  lemma {:induction false} GenerateUnique(before: seq<Invoice>, i: Inputs, tenants: seq<Tenant>, month: string,
                                          now: int)
    requires UniqueKeys(before)
    ensures UniqueKeys(Generate(before, i, tenants, month, now))
  {
    if tenants != [] {
      var n := |tenants| - 1;
      GenerateUnique(before, i, tenants[..n], month, now);
      var rows := Generate(before, i, tenants[..n], month, now);
      var key := Key(tenants[n].id, month);
      StepUnique(World(rows, map[], [], None), Snapshot(StatusOf(before, key), key, BillOf(i, tenants[n]), now));
    }
  }

  lemma Idempotent(before: seq<Invoice>, i: Inputs, tenants: seq<Tenant>, month: string, now: int, later: int)
    requires UniqueKeys(before) && TenantsDiffer(tenants)
    ensures var once := Generate(before, i, tenants, month, now);
            SameButTimes(once, Generate(once, i, tenants, month, later))
  {
    var once := Generate(before, i, tenants, month, now);
    GenerateUnique(before, i, tenants, month, now);
    forall n | 0 <= n < |tenants|
      ensures var v := Find(once, Key(tenants[n].id, month));
              v.Some? && (v.value.status == DRAFT ==> v.value.bill == BillOf(i, tenants[n]))
    {
      Generated(before, i, tenants, month, now, Key(tenants[n].id, month));
    }
    GenerateAgain(once, i, tenants, month, later);
  }

  // ----- the cached lock status -------------------------------------------------------------

  /** Every cached status is what the current invoices give at the moment it was cached. */
  predicate CacheOk(w: World) {
    forall t :: t in w.cache ==> w.cache[t].status == Assess(Unpaid(w.rows, t), w.cache[t].expiresAt - LOCK_CACHE_TTL)
  }

  lemma {:induction false} FilterUpdate(u: Invoice -> bool, rows: seq<Invoice>, p: Invoice -> bool,
                                        f: Invoice -> Invoice)
    requires forall i :: 0 <= i < |rows| && p(rows[i]) ==> !u(rows[i]) && !u(f(rows[i]))
    ensures Filter(u, Update(rows, p, f)) == Filter(u, rows)
  {
    if rows != [] {
      FilterUpdate(u, rows[1..], p, f);
    }
  }

  /** A step changes the unpaid invoices only of tenants whose cached status it evicts. */
  lemma UnpaidKept(w: World, step: Step, t: string)
    requires t in w.cache && t in Next(w, step).cache && !step.Check? && !step.Finish?
    ensures Next(w, step).cache[t] == w.cache[t]
    ensures Unpaid(Next(w, step).rows, t) == Unpaid(w.rows, t)
  {
    if step.Snapshot? {
      FilterUpdate(UnpaidOf(t), w.rows, IsDraft(step.key), Rebill(step.bill, step.now));
      var v := Invoice(step.key, step.bill, DRAFT, step.now, step.now);
      FilterAppend(UnpaidOf(t), w.rows, [v]);
      FilterNone(UnpaidOf(t), [v]);
    } else if step.Issue? && t != step.key.tenantId {
      FilterUpdate(UnpaidOf(t), w.rows, IsDraft(step.key), Become(ISSUED, step.now));
    } else if step.Pay? && t != step.key.tenantId {
      FilterUpdate(UnpaidOf(t), w.rows, HasKey(step.key), Become(PAID, step.now));
    }
  }

  /** The cache stays true in every step, except that a check which reads first and caches later does so
      exactly if the invoices it read still give the same status. */
  lemma StepCache(w: World, step: Step)
    requires CacheOk(w)
    ensures CacheOk(Next(w, step))
            <==> (step.Finish? && w.read.Some? ==>
                    Assess(w.read.value.1, step.now) == Assess(Unpaid(w.rows, w.read.value.0), step.now))
  {
    hide Update, WriteSnapshot, Assess, Unpaid, StatusOf;
    var next := Next(w, step);
    if step.Check? || step.Finish? {
      assert next.rows == w.rows;
      if step.Finish? && w.read.Some? {
        assert w.read.value.0 in next.cache;
      }
    } else {
      forall t | t in next.cache
        ensures next.cache[t].status == Assess(Unpaid(next.rows, t), next.cache[t].expiresAt - LOCK_CACHE_TTL)
      {
        UnpaidKept(w, step, t);
      }
    }
  }

  /** No check of the run caches what has changed since it read. */
  predicate Unraced(w: World, steps: seq<Step>)
    decreases |steps|
  {
    steps == [] ||
    ((steps[0].Finish? && w.read.Some? ==> w.read.value.1 == Unpaid(w.rows, w.read.value.0))
     && Unraced(Next(w, steps[0]), steps[1..]))
  }

  predicate ClockRuns(steps: seq<Step>, start: int) {
    (forall i :: 0 <= i < |steps| ==> start <= steps[i].now)
    && forall i, j :: 0 <= i < j < |steps| ==> steps[i].now <= steps[j].now
  }

  predicate Fresh(w: World, clock: int) {
    forall t :: t in w.cache ==> w.cache[t].expiresAt <= clock + LOCK_CACHE_TTL
  }

  lemma {:induction false} RunCache(w: World, steps: seq<Step>, start: int, end: int)
    requires CacheOk(w) && Fresh(w, start) && Unraced(w, steps) && ClockRuns(steps, start)
    requires start <= end && forall i :: 0 <= i < |steps| ==> steps[i].now <= end
    ensures CacheOk(Run(w, steps)) && Fresh(Run(w, steps), end)
    decreases |steps|
  {
    if steps != [] {
      hide CacheOk, Assess, Unpaid, Next;
      StepCache(w, steps[0]);
      StepFresh(w, steps[0], start);
      RunCache(Next(w, steps[0]), steps[1..], steps[0].now, end);
    }
  }

  lemma StepFresh(w: World, step: Step, clock: int)
    requires Fresh(w, clock) && clock <= step.now
    ensures Fresh(Next(w, step), step.now)
  {
    hide Assess, Unpaid, Update, WriteSnapshot, StatusOf;
  }

  /** What a check at `now` answers. */
  function Decision(w: World, tenantId: string, now: int): LockStatus {
    if tenantId in w.cache && w.cache[tenantId].expiresAt > now then w.cache[tenantId].status
    else Assess(Unpaid(w.rows, tenantId), now)
  }

  /** The instant whose assessment is answered. */
  function AsOf(w: World, tenantId: string, now: int): int {
    if tenantId in w.cache && w.cache[tenantId].expiresAt > now
    then w.cache[tenantId].expiresAt - LOCK_CACHE_TTL else now
  }

  /** Two assessments of the same invoices differ in the lock exactly if the grace period ended between. */
  lemma LockBetween(unpaid: seq<Invoice>, earlier: int, now: int)
    requires earlier <= now
    ensures var a, b := Assess(unpaid, earlier), Assess(unpaid, now);
            && a.hasOverdue == b.hasOverdue && a.amount == b.amount
            && (a.locked != b.locked <==> unpaid != [] && earlier <= Oldest(unpaid) + FOURTEEN_DAYS < now)
            && (b.locked != a.locked ==> b.locked)
  {
  }

  /** Over every run a decision is the assessment of the current invoices at an instant of the last minute;
      it differs from a fresh one in the lock only if the grace period ended since, and then by not yet
      locking; and no tenant whose invoices are all paid is locked. */
  lemma DecisionFresh(w: World, steps: seq<Step>, start: int, now: int, tenantId: string)
    requires CacheOk(w) && Fresh(w, start) && Unraced(w, steps) && ClockRuns(steps, start)
    requires start <= now && forall i :: 0 <= i < |steps| ==> steps[i].now <= now
    ensures var end := Run(w, steps);
            var unpaid, decision, asOf :=
                Unpaid(end.rows, tenantId), Decision(end, tenantId, now), AsOf(end, tenantId, now);
            && decision == Assess(unpaid, asOf) && now - LOCK_CACHE_TTL < asOf <= now
            && (decision.locked != Assess(unpaid, now).locked
               <==> unpaid != [] && asOf <= Oldest(unpaid) + FOURTEEN_DAYS < now)
            && (decision.locked ==> Assess(unpaid, now).locked)
            && (unpaid == [] ==> decision == GOOD_STANDING)
  {
    hide *;
    RunCache(w, steps, start, now);
    var end := Run(w, steps);
    DecidedAsOf(end, tenantId, now);
    LockBetween(Unpaid(end.rows, tenantId), AsOf(end, tenantId, now), now);
    NothingOwed(AsOf(end, tenantId, now));
  }

  lemma DecidedAsOf(w: World, tenantId: string, now: int)
    requires CacheOk(w) && Fresh(w, now)
    ensures Decision(w, tenantId, now) == Assess(Unpaid(w.rows, tenantId), AsOf(w, tenantId, now))
    ensures now - LOCK_CACHE_TTL < AsOf(w, tenantId, now) <= now
  {
    hide Assess, Unpaid;
  }

  lemma NothingOwed(now: int)
    ensures Assess([], now) == GOOD_STANDING
  {
  }

  /** A check that reads before a payment and caches after it locks the tenant although nothing is unpaid. */
  lemma LockOutlivesPayment(v: Invoice, now: int)
    requires v.status == ISSUED && now > v.createdAt + FOURTEEN_DAYS
    ensures var t := v.key.tenantId;
            var w := World([v], map[], [], None);
            var end := Run(w, [Query(t, now), Pay(v.key, now), Finish(now)]);
            Unpaid(end.rows, t) == [] && Decision(end, t, now).locked
  {
    var t := v.key.tenantId;
    var w := World([v], map[], [], None);
    var a := Next(w, Query(t, now));
    var b := Next(a, Pay(v.key, now));
    FilterAll(UnpaidOf(t), [v]);
    assert Unpaid([v], t) == [v] && Oldest([v]) == v.createdAt;
    assert StatusOf([v], v.key) == Some(ISSUED);
    var paid := v.(status := PAID, updatedAt := now);
    assert Update([], HasKey(v.key), Become(PAID, now)) == [] && [v][1..] == [];
    assert b.rows == [paid];
    FilterNone(UnpaidOf(t), [paid]);
    RunThree(w, Query(t, now), Pay(v.key, now), Finish(now));
  }
}
