/** Listing blogs: conditions pushed into the query, a bounded scan in batches, and pages by offset. */
module BlogList {
  import opened Wrappers
  import opened Lists

  datatype Role = SuperAdmin | SchoolAdmin | Teacher | Student | Parent

  datatype Scope = ClassScope | SchoolScope | PlatformScope

  /** Missing identifiers are empty strings. */
  datatype Blog = Blog(id: string, tenantId: string, classId: string, scope: Scope, authorId: string, title: string,
                       tags: set<string>, published: bool, takenDown: bool, deleted: bool)

  /** The caller, with what the service looks up before it queries. */
  datatype Caller = Caller(role: Role, tenantId: string, isGrowth: bool, teacherClasses: seq<string>,
                           studentClass: string)

  datatype Options = Options(scope: Option<Scope>, classId: string, tag: string, search: Option<string -> bool>,
                             limit: int, offset: int)

  predicate WellFormed(c: Caller) {
    (c.role == SuperAdmin ==> c.isGrowth) && "" !in c.teacherClasses
  }

  // ----- before the query -----------------------------------------------------------

  predicate Forbidden(c: Caller, o: Options) { o.scope == Some(PlatformScope) && !c.isGrowth }

  /** The requests for class blogs that are answered with an empty list at once. */
  predicate EmptyAtOnce(c: Caller, o: Options) {
    o.scope == Some(ClassScope) &&
    match c.role
    case Parent => true
    case Student => c.studentClass == "" || (o.classId != "" && o.classId != c.studentClass)
    case Teacher => c.teacherClasses == [] || (o.classId != "" && o.classId !in c.teacherClasses)
    case _ => false
  }

  // ----- the query --------------------------------------------------------------------

  predicate Published(o: Options, b: Blog) {
    && !b.deleted && b.published && !b.takenDown
    && (o.tag != "" ==> o.tag in b.tags)
    && (o.search.Some? ==> o.search.value(b.title))
  }

  /** The conditions on tenant, scope and class that the query is given. */
  predicate PushedDown(c: Caller, o: Options, b: Blog) {
    if c.role == SuperAdmin then
      o.scope.Some? ==> b.scope == o.scope.value && (o.classId != "" ==> b.classId == o.classId)
    else match o.scope
      case Some(PlatformScope) => b.scope == PlatformScope
      case Some(SchoolScope) => b.tenantId == c.tenantId && b.scope == SchoolScope
      case Some(ClassScope) =>
        b.tenantId == c.tenantId && b.scope == ClassScope &&
        (match c.role
         case Student => b.classId == c.studentClass
         case Teacher =>
           if o.classId != "" then b.classId == o.classId
           else if |c.teacherClasses| == 1 then b.classId == c.teacherClasses[0]
           else b.classId in c.teacherClasses
         case _ => o.classId != "" ==> b.classId == o.classId)
      case None =>
        (if c.isGrowth then b.tenantId == c.tenantId || b.scope == PlatformScope else b.tenantId == c.tenantId) &&
        (match c.role
         case Parent => b.scope != ClassScope
         case Student => c.studentClass == "" ==> b.scope != ClassScope
         case Teacher => c.teacherClasses == [] ==> b.scope != ClassScope
         case _ => true)
  }

  // ----- the checks on each row ---------------------------------------------------------

  predicate IsAllowedBlog(c: Caller, b: Blog) {
    if b.takenDown then false
    else if c.role == SuperAdmin then true
    else match b.scope
      case PlatformScope => c.isGrowth
      case SchoolScope => b.tenantId == c.tenantId
      case ClassScope =>
        b.tenantId == c.tenantId &&
        (match c.role
         case SchoolAdmin => true
         case Teacher => b.classId != "" && b.classId in c.teacherClasses
         case Student => b.classId != "" && c.studentClass == b.classId
         case _ => false)
  }

  /** A platform blog stays listed while its author is active and its school is on a platform plan. */
  predicate InGoodStanding(activeAuthors: set<string>, growthTenants: set<string>, b: Blog) {
    b.scope == PlatformScope ==> b.authorId in activeAuthors && (b.tenantId != "" ==> b.tenantId in growthTenants)
  }

  function Keeps(c: Caller, activeAuthors: set<string>, growthTenants: set<string>): Blog -> bool {
    (b: Blog) => InGoodStanding(activeAuthors, growthTenants, b) && IsAllowedBlog(c, b)
  }

  function Queried(c: Caller, o: Options): Blog -> bool {
    (b: Blog) => Published(o, b) && PushedDown(c, o, b)
  }

  /** What the request asks for, whoever makes it. */
  predicate Asked(c: Caller, o: Options, b: Blog) {
    && (o.scope.Some? ==> b.scope == o.scope.value)
    && (o.classId != "" && (o.scope == Some(ClassScope) || (c.role == SuperAdmin && o.scope.Some?)) ==>
         b.classId == o.classId)
  }

  /** The query and the checks together list exactly the published blogs that were asked for and that the
      caller may see: what the query leaves out, the checks would have rejected. */
  lemma PushDownExact(c: Caller, o: Options, b: Blog)
    requires WellFormed(c) && !Forbidden(c, o) && !EmptyAtOnce(c, o)
    ensures PushedDown(c, o, b) && IsAllowedBlog(c, b) <==> Asked(c, o, b) && IsAllowedBlog(c, b)
  {
    if c.role == Teacher && o.scope == Some(ClassScope) && |c.teacherClasses| == 1 {
      assert b.classId in c.teacherClasses <==> b.classId == c.teacherClasses[0];
    }
  }

  function AskedPublished(c: Caller, o: Options): Blog -> bool {
    (b: Blog) => Published(o, b) && Asked(c, o, b)
  }

  lemma {:induction false} SameSelection(p: Blog -> bool, q: Blog -> bool, keep: Blog -> bool, table: seq<Blog>)
    requires forall b :: b in table ==> (p(b) && keep(b) <==> q(b) && keep(b))
    ensures Filter(keep, Filter(p, table)) == Filter(keep, Filter(q, table))
  {
    if table != [] {
      SameSelection(p, q, keep, table[1..]);
      assert table[0] in table;
      FilterOne(keep, table[0], Filter(p, table[1..]));
      FilterOne(keep, table[0], Filter(q, table[1..]));
    }
  }

  /** On whole tables: for every role and every option the pushed-down conditions lose nothing. */
  lemma NothingLost(c: Caller, o: Options, active: set<string>, growth: set<string>, table: seq<Blog>)
    requires WellFormed(c) && !Forbidden(c, o) && !EmptyAtOnce(c, o)
    ensures Filter(Keeps(c, active, growth), Filter(Queried(c, o), table))
         == Filter(Keeps(c, active, growth), Filter(AskedPublished(c, o), table))
  {
    forall b | b in table
      ensures Queried(c, o)(b) && Keeps(c, active, growth)(b)
              <==> AskedPublished(c, o)(b) && Keeps(c, active, growth)(b)
    {
      PushDownExact(c, o, b);
    }
    SameSelection(Queried(c, o), AskedPublished(c, o), Keeps(c, active, growth), table);
  }

  // ----- the batch loop --------------------------------------------------------------------

  const MAX_ITERATIONS := 10

  function TargetLimit(limit: int): (n: nat)
    ensures 1 <= n <= 100
  {
    var given := if limit == 0 then 50 else limit;
    if given < 1 then 1 else if given > 100 then 100 else given
  }

  function UserOffset(offset: int): nat { if offset < 0 then 0 else offset }

  function BatchSize(limit: nat): (n: nat)
    ensures n >= 50 && n >= 2 * limit
  {
    if limit * 2 < 50 then 50 else limit * 2
  }

  /** The rows that the loop reads: ten batches at most, fewer if a query fails before. */
  function Window(rows: seq<Blog>, limit: nat, answered: nat): seq<Blog> {
    Take(RangeStart(if answered < MAX_ITERATIONS then answered else MAX_ITERATIONS, BatchSize(limit)), rows)
  }

  /** Where the range after `iteration` ranges begins. */
  function RangeStart(iteration: nat, batchSize: nat): nat { iteration * batchSize }

  /** The page of a list. */
  function Paged<T>(limit: nat, offset: nat, list: seq<T>): (page: seq<T>)
    ensures |page| <= limit
  {
    Take(limit, Drop(offset, list))
  }

  lemma PagedGrows<T>(limit: nat, offset: nat, a: seq<T>, b: seq<T>)
    requires |Paged(limit, offset, a)| == limit
    ensures Paged(limit, offset, a + b) == Paged(limit, offset, a)
  {
    if limit > 0 {
      assert Drop(offset, a + b) == Drop(offset, a) + b;
    }
  }

  /** One more kept row is skipped, or joins the page, or comes too late. */
  lemma PagedStep<T>(limit: nat, offset: nat, a: seq<T>, x: T)
    requires limit > 0
    ensures Paged(limit, offset, a + [x])
         == if |a| < offset || |Paged(limit, offset, a)| == limit then Paged(limit, offset, a)
            else Paged(limit, offset, a) + [x]
  {
    if |a| >= offset {
      assert Drop(offset, a + [x]) == Drop(offset, a) + [x];
    }
  }

  /** The rows that pass the checks. */
  function Kept(c: Caller, active: set<string>, growth: set<string>, rows: seq<Blog>): seq<Blog> {
    Filter(Keeps(c, active, growth), rows)
  }

  lemma KeptAppend(c: Caller, active: set<string>, growth: set<string>, a: seq<Blog>, b: seq<Blog>)
    ensures Kept(c, active, growth, a + b) == Kept(c, active, growth, a) + Kept(c, active, growth, b)
    ensures Kept(c, active, growth, []) == []
  {
    FilterAppend(Keeps(c, active, growth), a, b);
  }

  lemma KeptSnoc(c: Caller, active: set<string>, growth: set<string>, s: seq<Blog>, b: Blog)
    ensures Kept(c, active, growth, s + [b])
         == if InGoodStanding(active, growth, b) && IsAllowedBlog(c, b) then Kept(c, active, growth, s) + [b]
            else Kept(c, active, growth, s)
  {
    FilterAppend(Keeps(c, active, growth), s, [b]);
    assert [b][1..] == [];
    hide IsAllowedBlog, InGoodStanding;
  }

  lemma TakeNext(rows: seq<Blog>, from: nat, size: nat)
    ensures Take(from + size, rows) == Take(from, rows) + Take(size, Drop(from, rows))
    ensures |Take(size, Drop(from, rows))| < size ==> |rows| <= from + size
  {
  }

  function PlatformAuthors(data: seq<Blog>): set<string> {
    set b | b in data && b.scope == PlatformScope :: b.authorId
  }

  function PlatformTenants(data: seq<Blog>): set<string> {
    set b | b in data && b.scope == PlatformScope && b.tenantId != "" :: b.tenantId
  }

  /** Looking up only the authors and schools of a batch decides its rows as a full lookup would. */
  lemma StandingInBatch(data: seq<Blog>, active: set<string>, growth: set<string>, k: nat)
    requires k < |data|
    ensures InGoodStanding(PlatformAuthors(data) * active, PlatformTenants(data) * growth, data[k])
            <==> InGoodStanding(active, growth, data[k])
  {
    assert data[k] in data;
  }

  /** One batch: the standing of authors and schools is looked up for its platform blogs only. */
  method ScanBatch(c: Caller, data: seq<Blog>, active: set<string>, growth: set<string>, targetLimit: nat,
                   userOffset: nat, filtered0: seq<Blog>, skipped0: nat, ghost kept0: seq<Blog>)
    returns (filtered: seq<Blog>, skippedCount: nat)
    requires filtered0 == Paged(targetLimit, userOffset, kept0) && |filtered0| < targetLimit
    requires skipped0 == if |kept0| < userOffset then |kept0| else userOffset
    ensures var kept := kept0 + Kept(c, active, growth, data);
            && filtered == Paged(targetLimit, userOffset, kept)
            && (|filtered| < targetLimit ==> skippedCount == if |kept| < userOffset then |kept| else userOffset)
  {
    hide *;
    var activeAuthorSet := PlatformAuthors(data) * active;
    var growthTenantSet := PlatformTenants(data) * growth;
    filtered, skippedCount := filtered0, skipped0;
    ghost var kept := kept0;
    var k := 0;
    KeptAppend(c, active, growth, [], []);
    assert data[..0] == [] && kept0 + [] == kept0;
    while k < |data|
      invariant 0 <= k <= |data|
      invariant kept == kept0 + Kept(c, active, growth, data[..k])
      invariant filtered == Paged(targetLimit, userOffset, kept) && |filtered| < targetLimit
      invariant skippedCount == if |kept| < userOffset then |kept| else userOffset
    {
      var b := data[k];
      assert data[..k + 1] == data[..k] + [b];
      KeptSnoc(c, active, growth, data[..k], b);
      StandingInBatch(data, active, growth, k);
      k := k + 1;
      if InGoodStanding(activeAuthorSet, growthTenantSet, b) && IsAllowedBlog(c, b) {
        PagedStep(targetLimit, userOffset, kept, b);
        kept := kept + [b];
        assert kept == kept0 + Kept(c, active, growth, data[..k]);
        if skippedCount < userOffset {
          skippedCount := skippedCount + 1;
        } else {
          filtered := filtered + [b];
          if |filtered| == targetLimit {
            break;
          }
        }
      }
    }
    KeptRest(c, active, growth, data, k, kept0, targetLimit, userOffset);
  }

  /** What the rest of a batch adds to a full page: nothing. */
  lemma KeptRest(c: Caller, active: set<string>, growth: set<string>, data: seq<Blog>, k: nat, kept0: seq<Blog>,
                 limit: nat, offset: nat)
    requires k <= |data|
    ensures var kept := kept0 + Kept(c, active, growth, data[..k]);
            var all := kept0 + Kept(c, active, growth, data);
            && (k == |data| ==> all == kept)
            && (|Paged(limit, offset, kept)| == limit ==> Paged(limit, offset, all) == Paged(limit, offset, kept))
  {
    hide *;
    var rest := Kept(c, active, growth, data[k..]);
    assert data == data[..k] + data[k..];
    KeptAppend(c, active, growth, data[..k], data[k..]);
    var kept := kept0 + Kept(c, active, growth, data[..k]);
    assert kept0 + Kept(c, active, growth, data) == kept + rest;
    assert k == |data| ==> data[..k] == data;
    if |Paged(limit, offset, kept)| == limit {
      PagedGrows(limit, offset, kept, rest);
    }
  }

  lemma TakeAll(rows: seq<Blog>, m: nat, window: nat)
    ensures |rows| <= m <= window ==> Take(m, rows) == Take(window, rows)
  {
  }

  /** Once the page is full, or the table is read, a longer window does not change the page. */
  lemma PageSettled(c: Caller, active: set<string>, growth: set<string>, rows: seq<Blog>, limit: nat, offset: nat,
                    m: nat, window: nat)
    requires m <= window
    requires |Paged(limit, offset, Kept(c, active, growth, Take(m, rows)))| == limit || |rows| <= m || m == window
    ensures Paged(limit, offset, Kept(c, active, growth, Take(m, rows)))
         == Paged(limit, offset, Kept(c, active, growth, Take(window, rows)))
  {
    hide *;
    TakeAll(rows, m, window);
    TakeNext(rows, m, window - m);
    var rest := Take(window - m, Drop(m, rows));
    KeptAppend(c, active, growth, Take(m, rows), rest);
    if |Paged(limit, offset, Kept(c, active, growth, Take(m, rows)))| == limit {
      PagedGrows(limit, offset, Kept(c, active, growth, Take(m, rows)), Kept(c, active, growth, rest));
    }
  }

  /** The batch loop: `rows` is the ordered answer to the query without a range, of which the first
      `answered` ranges are returned before one fails. */
  method ScanBlogs(c: Caller, rows: seq<Blog>, active: set<string>, growth: set<string>, limit: int, offset: int,
                   answered: nat)
    returns (filtered: seq<Blog>)
    ensures var n := TargetLimit(limit);
            filtered == Paged(n, UserOffset(offset), Kept(c, active, growth, Window(rows, n, answered)))
  {
    hide *;
    var targetLimit, userOffset := TargetLimit(limit), UserOffset(offset);
    var batchSize := BatchSize(targetLimit);
    ghost var queries := if answered < MAX_ITERATIONS then answered else MAX_ITERATIONS;
    filtered := [];
    var skippedCount, dbOffset, iteration := 0, 0, 0;
    ghost var kept: seq<Blog> := [];
    ScanStarts(c, active, growth, rows, targetLimit, userOffset, answered);
    while |filtered| < targetLimit && iteration < MAX_ITERATIONS
      invariant dbOffset == RangeStart(iteration, batchSize) && iteration <= queries
      invariant kept == Kept(c, active, growth, Take(dbOffset, rows)) &&
                filtered == Paged(targetLimit, userOffset, kept)
      invariant |filtered| < targetLimit ==> skippedCount == if |kept| < userOffset then |kept| else userOffset
      decreases MAX_ITERATIONS - iteration
    {
      if iteration == answered {
        break;
      }
      iteration := iteration + 1;
      var data := Take(batchSize, Drop(dbOffset, rows));
      TakeNext(rows, dbOffset, batchSize);
      KeptAppend(c, active, growth, Take(dbOffset, rows), data);
      filtered, skippedCount :=
        ScanBatch(c, data, active, growth, targetLimit, userOffset, filtered, skippedCount, kept);
      kept := kept + Kept(c, active, growth, data);
      NextBatch(iteration, batchSize);
      dbOffset := dbOffset + batchSize;
      if |data| < batchSize {
        break;
      }
    }
    WindowBound(iteration, queries, batchSize);
    PageSettled(c, active, growth, rows, targetLimit, userOffset, dbOffset, RangeStart(queries, batchSize));
  }

  /** The page of what a caller asked for and may see, over the scanned window; None when it is forbidden. */
  function Listing(c: Caller, o: Options, table: seq<Blog>, active: set<string>, growth: set<string>,
                   answered: nat): Option<seq<Blog>> {
    var n := TargetLimit(o.limit);
    if Forbidden(c, o) then None
    else if EmptyAtOnce(c, o) then Some([])
    else Some(Paged(n, UserOffset(o.offset),
         Kept(c, active, growth, Window(Filter(Queried(c, o), table), n, answered))))
  }

  /** `listBlogs` on the blogs in order: pinned first, then the newest. */
  method ListBlogs(c: Caller, o: Options, table: seq<Blog>, active: set<string>, growth: set<string>, answered: nat)
    returns (result: Option<seq<Blog>>)
    ensures result == Listing(c, o, table, active, growth, answered)
  {
    if c.role == Parent && o.scope == Some(ClassScope) {
      return Some([]);
    }
    if o.scope == Some(PlatformScope) && !c.isGrowth {
      return None;
    }
    if EmptyAtOnce(c, o) {
      return Some([]);
    }
    var page := ScanBlogs(c, Filter(Queried(c, o), table), active, growth, o.limit, o.offset, answered);
    return Some(page);
  }

  /** While the window covers the query's answer, the listing is the page of all published blogs that were
      asked for and that the checks keep, as if nothing had been pushed into the query. */
  lemma ListsAsked(c: Caller, o: Options, table: seq<Blog>, active: set<string>, growth: set<string>, answered: nat)
    requires WellFormed(c) && !Forbidden(c, o) && !EmptyAtOnce(c, o)
    requires var rows := Filter(Queried(c, o), table); Window(rows, TargetLimit(o.limit), answered) == rows
    ensures Listing(c, o, table, active, growth, answered)
         == Some(Paged(TargetLimit(o.limit), UserOffset(o.offset),
            Kept(c, active, growth, Filter(AskedPublished(c, o), table))))
  {
    NothingLost(c, o, active, growth, table);
    hide Filter, Paged, Forbidden, EmptyAtOnce, Window, Queried;
  }

  lemma ScanStarts(c: Caller, active: set<string>, growth: set<string>, rows: seq<Blog>, limit: nat, offset: nat,
                   answered: nat)
    ensures Kept(c, active, growth, Take(0, rows)) == []
    ensures Paged(limit, offset, Kept(c, active, growth, Take(0, rows))) == []
    ensures RangeStart(0, BatchSize(limit)) == 0 <= MAX_ITERATIONS
    ensures var queries := if answered < MAX_ITERATIONS then answered else MAX_ITERATIONS;
            Window(rows, limit, answered) == Take(RangeStart(queries, BatchSize(limit)), rows)
  {
  }

  lemma NextBatch(iteration: nat, batchSize: nat)
    requires iteration > 0
    ensures RangeStart(iteration, batchSize) == RangeStart(iteration - 1, batchSize) + batchSize
  {
  }

  lemma WindowBound(iteration: nat, queries: nat, batchSize: nat)
    requires iteration <= queries
    ensures RangeStart(iteration, batchSize) <= RangeStart(queries, batchSize)
  {
  }

  // ----- pages ------------------------------------------------------------------------------

  /** The rows that the loop may read of the query's answer, and those of them that pass the checks. */
  function Scanned(c: Caller, o: Options, table: seq<Blog>, answered: nat): seq<Blog> {
    Window(Filter(Queried(c, o), table), TargetLimit(o.limit), answered)
  }

  function Reachable(c: Caller, o: Options, table: seq<Blog>, active: set<string>, growth: set<string>,
                     answered: nat): seq<Blog> {
    Kept(c, active, growth, Scanned(c, o, table, answered))
  }

  lemma {:induction false} SameFilter(p: Blog -> bool, q: Blog -> bool, s: seq<Blog>)
    requires forall b :: p(b) == q(b)
    ensures Filter(p, s) == Filter(q, s)
  {
    if s != [] {
      SameFilter(p, q, s[1..]);
    }
  }

  /** The offset only chooses the page. */
  lemma ListingAt(c: Caller, o: Options, table: seq<Blog>, active: set<string>, growth: set<string>, answered: nat,
                  offset: int)
    requires !Forbidden(c, o) && !EmptyAtOnce(c, o)
    ensures Listing(c, o.(offset := offset), table, active, growth, answered)
         == Some(Paged(TargetLimit(o.limit), UserOffset(offset), Reachable(c, o, table, active, growth, answered)))
  {
    SameFilter(Queried(c, o.(offset := offset)), Queried(c, o), table);
    hide Filter, Paged, Window, Kept;
  }

  /** The first `n` pages of a client that asks for `limit` blogs at offsets 0, `limit`, twice `limit`, and
      so on, one after the other. */
  function Pages(c: Caller, o: Options, table: seq<Blog>, active: set<string>, growth: set<string>, answered: nat,
                 n: nat): seq<Blog> {
    if n == 0 then []
    else
      match Listing(c, o.(offset := (n - 1) * o.limit), table, active, growth, answered)
      case None => []
      case Some(page) => Pages(c, o, table, active, growth, answered, n - 1) + page
  }

  lemma OnePage<T>(limit: nat, list: seq<T>, start: nat)
    ensures Take(start + limit, list) == Take(start, list) + Paged(limit, start, list)
  {
  }

  lemma NextStart(n: nat, limit: int)
    requires n > 0
    ensures n * limit == (n - 1) * limit + limit
    ensures limit >= 0 ==> (n - 1) * limit >= 0
  {
  }

  /** One more page. */
  lemma PagesStep(c: Caller, o: Options, table: seq<Blog>, active: set<string>, growth: set<string>, answered: nat,
                  n: nat)
    requires !Forbidden(c, o) && !EmptyAtOnce(c, o) && n > 0
    ensures Pages(c, o, table, active, growth, answered, n)
         == Pages(c, o, table, active, growth, answered, n - 1)
            + Paged(TargetLimit(o.limit), UserOffset((n - 1) * o.limit),
              Reachable(c, o, table, active, growth, answered))
  {
    ListingAt(c, o, table, active, growth, answered, (n - 1) * o.limit);
    hide Listing, Paged, TargetLimit, UserOffset, Reachable, Forbidden, EmptyAtOnce;
  }

  /** With a limit of one to a hundred the pages tile the reachable blogs: none twice, none left out. */
  lemma {:induction false} PagesTile(c: Caller, o: Options, table: seq<Blog>, active: set<string>, growth: set<string>,
                                     answered: nat, n: nat)
    requires !Forbidden(c, o) && !EmptyAtOnce(c, o) && 1 <= o.limit <= 100
    ensures n * o.limit >= 0
    ensures Pages(c, o, table, active, growth, answered, n)
         == Take(n * o.limit, Reachable(c, o, table, active, growth, answered))
  {
    hide *;
    var list := Reachable(c, o, table, active, growth, answered);
    PagesStart(c, o, table, active, growth, answered);
    if n > 0 {
      PagesTile(c, o, table, active, growth, answered, n - 1);
      PagesStep(c, o, table, active, growth, answered, n);
      NextStart(n, o.limit);
      OffsetKept((n - 1) * o.limit);
      OnePage(o.limit, list, (n - 1) * o.limit);
    }
  }

  lemma OffsetKept(offset: int)
    requires offset >= 0
    ensures UserOffset(offset) == offset
  {
  }

  /** A page of a hundred, taken where the stride is longer, is shorter than the stride while blogs are left. */
  lemma ShortPage<T>(limit: nat, list: seq<T>, start: nat)
    requires limit > 100
    ensures |Paged(100, start, list)| <= |Take(start + limit, list)| - |Take(start, list)|
    ensures |list| > 100 && start == 0 ==> |Paged(100, start, list)| < |Take(start + limit, list)| - |Take(start, list)|
    ensures |list| <= 100 && start == 0 ==> Paged(100, start, list) == list == Take(start + limit, list)
    ensures |list| <= 100 && start > 100 ==>
              Paged(100, start, list) == [] && Take(start, list) == list == Take(start + limit, list)
  {
  }

  lemma {:induction false} LongPages(c: Caller, o: Options, table: seq<Blog>, active: set<string>, growth: set<string>,
                                     answered: nat, n: nat)
    requires !Forbidden(c, o) && !EmptyAtOnce(c, o) && o.limit > 100 && n > 0
    ensures n * o.limit >= 0
    ensures var list, pages :=
            Reachable(c, o, table, active, growth, answered), Pages(c, o, table, active, growth, answered, n);
            && (|list| > 100 ==> |pages| < |Take(n * o.limit, list)|)
            && (|list| <= 100 ==> pages == Take(n * o.limit, list))
  {
    hide *;
    var list := Reachable(c, o, table, active, growth, answered);
    var start := (n - 1) * o.limit;
    PagesStart(c, o, table, active, growth, answered);
    PagesStep(c, o, table, active, growth, answered, n);
    NextStart(n, o.limit);
    OffsetKept(start);
    ShortPage(o.limit, list, start);
    if n == 1 {
      assert start == 0;
    } else {
      LongPages(c, o, table, active, growth, answered, n - 1);
      StartBeyond(n, o.limit);
    }
  }

  lemma PagesStart(c: Caller, o: Options, table: seq<Blog>, active: set<string>, growth: set<string>, answered: nat)
    ensures o.limit >= 1 ==> TargetLimit(o.limit) == if o.limit <= 100 then o.limit else 100
    ensures Pages(c, o, table, active, growth, answered, 0) == []
    ensures Take(0, Reachable(c, o, table, active, growth, answered)) == []
  {
    hide Reachable;
  }

  lemma StartBeyond(n: nat, limit: int)
    requires n > 1 && limit > 100
    ensures (n - 1) * limit > 100
  {
    NextStart(n - 1, limit);
  }

  /** For every limit a client may ask for: the pages tile the reachable blogs if and only if the limit is
      within a hundred or they all fit the first page. */
  lemma PagesTileIff(c: Caller, o: Options, table: seq<Blog>, active: set<string>, growth: set<string>, answered: nat,
                     n: nat)
    requires !Forbidden(c, o) && !EmptyAtOnce(c, o) && o.limit >= 1 && n > 0
    ensures n * o.limit >= 0
    ensures var list := Reachable(c, o, table, active, growth, answered);
            Pages(c, o, table, active, growth, answered, n) == Take(n * o.limit, list)
            <==> o.limit <= 100 || |list| <= 100
  {
    hide *;
    if o.limit <= 100 {
      PagesTile(c, o, table, active, growth, answered, n);
    } else {
      LongPages(c, o, table, active, growth, answered, n);
    }
  }

  /** Without a positive limit every page is the first. */
  lemma FirstPageAgain(c: Caller, o: Options, table: seq<Blog>, active: set<string>, growth: set<string>, answered: nat,
                       k: nat)
    requires !Forbidden(c, o) && !EmptyAtOnce(c, o) && o.limit <= 0
    ensures Listing(c, o.(offset := k * o.limit), table, active, growth, answered)
         == Listing(c, o.(offset := 0), table, active, growth, answered)
  {
    assert k * o.limit <= 0;
    ListingAt(c, o, table, active, growth, answered, k * o.limit);
    ListingAt(c, o, table, active, growth, answered, 0);
    hide Listing, Paged, Reachable;
  }

  // ----- what paging reaches ------------------------------------------------------------------

  /** The query's answer beyond the scanned window. */
  function Beyond(c: Caller, o: Options, table: seq<Blog>, answered: nat): seq<Blog> {
    var rows := Filter(Queried(c, o), table);
    Drop(RangeStart(if answered < MAX_ITERATIONS then answered else MAX_ITERATIONS, BatchSize(TargetLimit(o.limit))),
      rows)
  }

  lemma WindowSplit(c: Caller, o: Options, table: seq<Blog>, answered: nat)
    ensures Filter(Queried(c, o), table) == Scanned(c, o, table, answered) + Beyond(c, o, table, answered)
  {
    hide Filter, Queried, TargetLimit, RangeStart, BatchSize;
  }

  lemma KeptNothing(c: Caller, active: set<string>, growth: set<string>, rows: seq<Blog>)
    ensures Kept(c, active, growth, rows) == [] <==> forall b :: b in rows ==> !Keeps(c, active, growth)(b)
  {
    if forall b :: b in rows ==> !Keeps(c, active, growth)(b) {
      FilterNone(Keeps(c, active, growth), rows);
    } else {
      var b :| b in rows && Keeps(c, active, growth)(b);
      assert b in Filter(Keeps(c, active, growth), rows);
    }
  }

  /** As many pages as the answer can fill list every published blog that was asked for and is allowed if
      and only if none of them lies beyond the scanned window. */
  lemma ReachesAllIff(c: Caller, o: Options, table: seq<Blog>, active: set<string>, growth: set<string>, answered: nat,
                      n: nat)
    requires WellFormed(c) && !Forbidden(c, o) && !EmptyAtOnce(c, o) && 1 <= o.limit <= 100 && n * o.limit >= |table|
    ensures Pages(c, o, table, active, growth, answered, n)
            == Kept(c, active, growth, Filter(AskedPublished(c, o), table))
            <==> forall b :: b in Beyond(c, o, table, answered) ==> !Keeps(c, active, growth)(b)
  {
    var rows, list := Filter(Queried(c, o), table), Reachable(c, o, table, active, growth, answered);
    assert |list| <= |Scanned(c, o, table, answered)| <= |table|
           by { ReachableShort(c, o, table, active, growth, answered); }
    hide *;
    PagesTile(c, o, table, active, growth, answered, n);
    TakeWhole(n * o.limit, list);
    KeptAsked(c, o, table, active, growth);
    WindowSplit(c, o, table, answered);
    ReachableIs(c, o, table, active, growth, answered);
    KeptAppend(c, active, growth, Scanned(c, o, table, answered), Beyond(c, o, table, answered));
    KeptNothing(c, active, growth, Beyond(c, o, table, answered));
    var beyond := Kept(c, active, growth, Beyond(c, o, table, answered));
    assert list == list + beyond <==> beyond == [];
  }

  lemma ReachableShort(c: Caller, o: Options, table: seq<Blog>, active: set<string>, growth: set<string>, answered: nat)
    ensures |Reachable(c, o, table, active, growth, answered)| <= |Scanned(c, o, table, answered)| <= |table|
  {
  }

  lemma ReachableIs(c: Caller, o: Options, table: seq<Blog>, active: set<string>, growth: set<string>, answered: nat)
    ensures Reachable(c, o, table, active, growth, answered) == Kept(c, active, growth, Scanned(c, o, table, answered))
  {
  }

  lemma TakeWhole<T>(n: nat, list: seq<T>)
    requires n >= |list|
    ensures Take(n, list) == list
  {
  }

  lemma KeptAsked(c: Caller, o: Options, table: seq<Blog>, active: set<string>, growth: set<string>)
    requires WellFormed(c) && !Forbidden(c, o) && !EmptyAtOnce(c, o)
    ensures Kept(c, active, growth, Filter(Queried(c, o), table))
            == Kept(c, active, growth, Filter(AskedPublished(c, o), table))
  {
    NothingLost(c, o, active, growth, table);
    hide Filter, Forbidden, EmptyAtOnce;
  }

  // ----- what is listed, read off the blogs -------------------------------------------------------

  /** A blog that the caller asked for and may read, whatever the query and the checks do. Blogs of a school
      are for its members, those of a class for the school's administrators and the class's teachers and
      students, those of the platform for schools on a platform plan; a platform administrator reads all. */
  predicate Readable(c: Caller, o: Options, active: set<string>, growth: set<string>, b: Blog) {
    && b.published && !b.deleted && !b.takenDown
    && (o.tag == "" || o.tag in b.tags) && (o.search.None? || o.search.value(b.title))
    && (o.scope.None? || b.scope == o.scope.value)
    && (o.classId == "" || b.classId == o.classId || o.scope.None?
       || (o.scope != Some(ClassScope) && c.role != SuperAdmin))
    && (b.scope != PlatformScope || (b.authorId in active && (b.tenantId == "" || b.tenantId in growth)))
    && (|| c.role == SuperAdmin
        || (b.scope == PlatformScope && c.isGrowth)
        || (b.scope == SchoolScope && b.tenantId == c.tenantId)
        || (b.scope == ClassScope && b.tenantId == c.tenantId
            && (|| c.role == SchoolAdmin
                || (c.role == Teacher && b.classId != "" && b.classId in c.teacherClasses)
                || (c.role == Student && b.classId != "" && b.classId == c.studentClass))))
  }

  function IsReadable(c: Caller, o: Options, active: set<string>, growth: set<string>): Blog -> bool {
    (b: Blog) => Readable(c, o, active, growth, b)
  }

  lemma {:induction false} FilterTwice(p: Blog -> bool, q: Blog -> bool, r: Blog -> bool, table: seq<Blog>)
    requires forall b :: r(b) <==> p(b) && q(b)
    ensures Filter(q, Filter(p, table)) == Filter(r, table)
  {
    if table != [] {
      FilterTwice(p, q, r, table[1..]);
      FilterOne(q, table[0], Filter(p, table[1..]));
    }
  }

  lemma ReadableIff(c: Caller, o: Options, active: set<string>, growth: set<string>, b: Blog)
    ensures Readable(c, o, active, growth, b) <==> AskedPublished(c, o)(b) && Keeps(c, active, growth)(b)
  {
  }

  lemma NoneReadable(c: Caller, o: Options, active: set<string>, growth: set<string>, b: Blog)
    requires WellFormed(c) && EmptyAtOnce(c, o)
    ensures !Readable(c, o, active, growth, b)
  {
  }

  lemma WindowCovers(rows: seq<Blog>, n: nat, answered: nat)
    requires answered >= 10 && |rows| <= 10 * (if 2 * n < 50 then 50 else 2 * n)
    ensures Window(rows, n, answered) == rows
  {
  }

  /** How many blogs a page has, and where it begins. */
  predicate IsPage(o: Options, n: nat, start: nat) {
    && n == (if o.limit == 0 then 50 else if o.limit < 1 then 1 else if o.limit > 100 then 100 else o.limit)
    && start == (if o.offset < 0 then 0 else o.offset)
  }

  /** While ten batches cover the table, a listing is the page of exactly the blogs that the caller asked for
      and may read, in the order of the table; asking for platform blogs without a platform plan is refused. */
  lemma ListedIff(c: Caller, o: Options, table: seq<Blog>, active: set<string>, growth: set<string>, answered: nat,
                  n: nat, start: nat)
    requires WellFormed(c) && IsPage(o, n, start)
    requires answered >= 10 && |table| <= 10 * (if 2 * n < 50 then 50 else 2 * n)
    ensures Listing(c, o, table, active, growth, answered)
         == if o.scope == Some(PlatformScope) && !c.isGrowth then None
            else Some(Take(n, Drop(start, Filter(IsReadable(c, o, active, growth), table))))
  {
    var rows := Filter(Queried(c, o), table);
    WindowCovers(rows, n, answered);
    if EmptyAtOnce(c, o) {
      forall i | 0 <= i < |table| ensures !IsReadable(c, o, active, growth)(table[i]) {
        NoneReadable(c, o, active, growth, table[i]);
      }
      FilterNone(IsReadable(c, o, active, growth), table);
    } else if !Forbidden(c, o) {
      ListsAsked(c, o, table, active, growth, answered);
      forall b: Blog
        ensures IsReadable(c, o, active, growth)(b) <==> AskedPublished(c, o)(b) && Keeps(c, active, growth)(b)
      {
        ReadableIff(c, o, active, growth, b);
      }
      FilterTwice(AskedPublished(c, o), Keeps(c, active, growth), IsReadable(c, o, active, growth), table);
    }
    hide Filter, Readable, Published, PushedDown, IsAllowedBlog, InGoodStanding, Window;
  }

  /** Nothing beyond ten batches is listed to anybody, at any offset: here all blogs of a school, for a
      platform administrator. */
  lemma TenBatches(c: Caller, o: Options, table: seq<Blog>, active: set<string>, growth: set<string>, answered: nat,
                   n: nat, start: nat)
    requires c.role == SuperAdmin && o.scope.None? && o.tag == "" && o.search.None? && IsPage(o, n, start) &&
             answered >= 10
    requires forall b :: b in table ==> b.scope == SchoolScope && b.published && !b.deleted && !b.takenDown
    ensures Listing(c, o, table, active, growth, answered)
         == Some(Take(n, Drop(start, Take(10 * (if 2 * n < 50 then 50 else 2 * n), table))))
  {
    FilterAll(Queried(c, o), table);
    var window := Window(table, n, answered);
    assert window == Take(10 * (if 2 * n < 50 then 50 else 2 * n), table);
    forall i | 0 <= i < |window| ensures Keeps(c, active, growth)(window[i]) {
      assert window[i] == table[i] && table[i] in table;
    }
    FilterAll(Keeps(c, active, growth), window);
  }
}
