/** The per-tenant event stream of the offline sync: numbering, idempotency keys, the retention
    purge, and what a client that follows its cursor is handed. */
module SyncStream {
  import opened Wrappers
  import opened Lists

  datatype EntityType =
    | Attendance | HomeworkSubmission | ChatMessage | BlogPost | BlogComment | BlogReaction
    | DisasterMode | EntitlementRevocation

  /** The payloads that are materialised into rows; every other payload is only carried. */
  datatype Payload =
    | RollCall(classId: string, studentId: Option<string>, date: string, period: Option<nat>,
               status: Option<string>, markedAt: Option<int>)
    | Message(conversationId: string, senderId: string, content: string, createdAt: Option<int>,
              chatClass: Option<string>, participants: seq<string>)
    | Other(json: string)

  /** What a client sends. */
  datatype Draft = Draft(clientUuid: string, entityType: EntityType, entityId: string, eventType: string,
                         payload: Payload)

  /** A row of `sync_events`.  The column `applied` is kept by the delivery model. */
  datatype Event = Event(sequence: nat, draft: Draft, createdAt: int)

  /** One tenant's rows in order of their sequence, and its counter. */
  datatype Stream = Stream(events: seq<Event>, last: nat)

  // ----- the database functions ------------------------------------------------

  function FindEvent(events: seq<Event>, clientUuid: string): (e: Option<Event>)
    ensures e.Some? ==> e.value in events && e.value.draft.clientUuid == clientUuid
    ensures e.None? ==> forall x :: x in events ==> x.draft.clientUuid != clientUuid
  {
    if events == [] then None
    else if events[0].draft.clientUuid == clientUuid then Some(events[0])
    else FindEvent(events[1..], clientUuid)
  }

  datatype Appended = Conflict | Appended(stream: Stream, event: Event)

  /** `append_sync_event`: a known key returns its event or is refused, a new one takes the next number. */
  function AppendSyncEvent(s: Stream, draft: Draft, createdAt: int): Appended {
    match FindEvent(s.events, draft.clientUuid)
    case Some(e) => if e.draft != draft then Conflict else Appended(s, e)
    case None =>
      var e := Event(s.last + 1, draft, createdAt);
      Appended(Stream(s.events + [e], s.last + 1), e)
  }

  function CreatedFrom(cutoff: int): Event -> bool { (e: Event) => e.createdAt >= cutoff }

  /** `purge_old_sync_events`, for the instant `cutoff` ninety days back. */
  function Purge(s: Stream, cutoff: int): Stream { s.(events := Filter(CreatedFrom(cutoff), s.events)) }

  // ----- getSyncEvents -----------------------------------------------------------

  const MAX_PAGE := 200

  function SafeLimit(limit: int): (n: nat)
    ensures 1 <= n <= MAX_PAGE
    ensures 1 <= limit <= 200 ==> n == limit
    ensures limit < 1 ==> n == 1
    ensures limit > 200 ==> n == 200
  {
    var atLeastOne := if limit < 1 then 1 else limit;
    if atLeastOne > MAX_PAGE then MAX_PAGE else atLeastOne
  }

  function NewerThan(since: int): Event -> bool { (e: Event) => e.sequence > since }

  /** The check against the retention window; a cursor of zero is never refused. */
  predicate Refused(s: Stream, since: int) {
    since > 0 &&
    if s.events != [] then since < s.events[0].sequence - 1
    else s.last > 0 && since < s.last
  }

  datatype Page = Gone | Page(rows: seq<Event>, hasMore: bool, latest: int)

  function ReadPage(s: Stream, since: int, limit: int): (p: Page)
    ensures p.Page?
  {
    var size := SafeLimit(limit);
    var rows := Take(size + 1, Filter(NewerThan(since), s.events));
    var hasMore := |rows| > size;
    var page := if hasMore then rows[..size] else rows;
    Page(page, hasMore, if page != [] then page[|page| - 1].sequence else since)
  }

  function GetSyncEvents(s: Stream, since: int, limit: int): Page {
    if Refused(s, since) then Gone else ReadPage(s, since, limit)
  }

  // ----- the stream against its full history --------------------------------------

  /** Every event ever appended, in order. */
  predicate Numbered(log: seq<Event>) { forall i :: 0 <= i < |log| ==> log[i].sequence == i + 1 }

  predicate UniqueKeys(events: seq<Event>) {
    forall i, j :: 0 <= i < j < |events| ==> events[i].draft.clientUuid != events[j].draft.clientUuid
  }

  /** The stream holds the history but for its first `purged` events. */
  predicate Holds(s: Stream, log: seq<Event>, purged: nat) {
    purged <= |log| && Numbered(log) && s.events == log[purged..] && s.last == |log| && UniqueKeys(s.events)
  }

  /** Appending never leaves a gap and never renumbers; a known key changes nothing. */
  lemma AppendHolds(s: Stream, log: seq<Event>, purged: nat, draft: Draft, createdAt: int)
    requires Holds(s, log, purged)
    ensures var r := AppendSyncEvent(s, draft, createdAt);
            var known := FindEvent(s.events, draft.clientUuid);
            && (r.Conflict? <==> known.Some? && known.value.draft != draft)
            && (r.Appended? ==> r.event.draft == draft && r.event in r.stream.events)
            && (r.Appended? && known.Some? ==> r.stream == s)
            && (r.Appended? && known.None? ==>
                 r.event.sequence == |log| + 1 && Holds(r.stream, log + [r.event], purged))
  {
    var known := FindEvent(s.events, draft.clientUuid);
    if known.None? {
      var e := Event(s.last + 1, draft, createdAt);
      assert (log + [e])[purged..] == log[purged..] + [e];
      assert e in s.events + [e];
      forall i, j | 0 <= i < j < |s.events + [e]|
        ensures (s.events + [e])[i].draft.clientUuid != (s.events + [e])[j].draft.clientUuid
      {
        assert s.events[i] in s.events;
      }
    }
  }

  // ----- re-sending ---------------------------------------------------------------

  /** A draft sent again to a later stream changes nothing if and only if its event is still retained. */
  lemma ResendIff(s: Stream, log: seq<Event>, purged: nat, draft: Draft, sent: nat, at: int)
    requires Holds(s, log, purged)
    requires sent < |log| && log[sent].draft == draft
    requires forall i :: sent < i < |log| ==> log[i].draft.clientUuid != draft.clientUuid
    ensures AppendSyncEvent(s, draft, at) == Appended(s, log[sent]) <==> purged <= sent
    ensures purged > sent ==> AppendSyncEvent(s, draft, at).Appended?
                              && AppendSyncEvent(s, draft, at).event.sequence == |log| + 1
  {
    var known := FindEvent(s.events, draft.clientUuid);
    forall k | 0 <= k < |s.events| && s.events[k].draft.clientUuid == draft.clientUuid ensures purged + k <= sent {
      assert log[purged + k] == s.events[k];
    }
    if purged <= sent {
      assert s.events[sent - purged] == log[sent] && log[sent] in s.events;
      var k :| 0 <= k < |s.events| && s.events[k] == known.value;
      assert k == sent - purged;
    }
  }

  // ----- the purge ------------------------------------------------------------------

  /** No event that stays precedes one that goes. */
  predicate CutsPrefix(events: seq<Event>, cutoff: int) {
    forall i, j :: 0 <= i < j < |events| && events[i].createdAt >= cutoff ==> events[j].createdAt >= cutoff
  }

  function PrefixBefore(events: seq<Event>, cutoff: int): (k: nat)
    ensures k <= |events|
    ensures forall i :: 0 <= i < k ==> events[i].createdAt < cutoff
    ensures k < |events| ==> events[k].createdAt >= cutoff
  {
    if events == [] || events[0].createdAt >= cutoff then 0 else 1 + PrefixBefore(events[1..], cutoff)
  }

  lemma UniqueSuffix(events: seq<Event>, k: nat)
    requires UniqueKeys(events) && k <= |events|
    ensures UniqueKeys(events[k..])
  {
  }

  lemma SuffixPurged(s: Stream, log: seq<Event>, purged: nat, cutoff: int)
    requires Holds(s, log, purged) && CutsPrefix(s.events, cutoff)
    ensures Holds(Purge(s, cutoff), log, purged + PrefixBefore(s.events, cutoff))
  {
    hide UniqueKeys, Numbered;
    var k := PrefixBefore(s.events, cutoff);
    FilterCut(CreatedFrom(cutoff), s.events, k);
    UniqueSuffix(s.events, k);
    assert log[purged..][k..] == log[purged + k..];
  }

  /** Two events of a purged stream that is a suffix of the history: if the first stays, so does the second. */
  lemma SuffixKeeps(s: Stream, log: seq<Event>, purged: nat, cutoff: int, p: nat, i: nat, j: nat)
    requires Holds(s, log, purged) && Holds(Purge(s, cutoff), log, p)
    requires i < j < |s.events| && s.events[i].createdAt >= cutoff
    ensures s.events[j].createdAt >= cutoff
  {
    var left := Purge(s, cutoff).events;
    assert s.events[i] in s.events && s.events[i] in left;
    hide Purge, UniqueKeys;
    var n :| 0 <= n < |left| && left[n] == s.events[i];
    assert log[p + n] == log[purged + i];
    assert p <= purged + j;
    var later := left[purged + j - p];
    assert later == log[purged + j] == s.events[j] && later in left;
    assert CreatedFrom(cutoff)(later) by { StaysIff(s, cutoff, later); }
  }

  lemma StaysIff(s: Stream, cutoff: int, e: Event)
    ensures e in Purge(s, cutoff).events <==> e in s.events && e.createdAt >= cutoff
  {
  }

  /** The purge leaves the tail of the history if and only if it removes a prefix of the stream. */
  lemma PurgeIff(s: Stream, log: seq<Event>, purged: nat, cutoff: int)
    requires Holds(s, log, purged)
    ensures (exists p: nat :: Holds(Purge(s, cutoff), log, p)) <==> CutsPrefix(s.events, cutoff)
    ensures CutsPrefix(s.events, cutoff) ==> Holds(Purge(s, cutoff), log, purged + PrefixBefore(s.events, cutoff))
  {
    if CutsPrefix(s.events, cutoff) {
      SuffixPurged(s, log, purged, cutoff);
    }
    if p: nat :| Holds(Purge(s, cutoff), log, p) {
      hide Holds, Purge;
      forall i, j | 0 <= i < j < |s.events| && s.events[i].createdAt >= cutoff ensures s.events[j].createdAt >= cutoff {
        SuffixKeeps(s, log, purged, cutoff, p, i, j);
      }
    }
  }

  /** The purge removes a prefix whenever creation times never decrease along the stream. */
  lemma DatedInOrder(events: seq<Event>, cutoff: int)
    requires forall i, j :: 0 <= i < j < |events| ==> events[i].createdAt <= events[j].createdAt
    ensures CutsPrefix(events, cutoff)
  {
  }

  // ----- what the check means -------------------------------------------------------

  /** For a positive cursor the check refuses exactly the cursors whose next event is purged. */
  lemma RefusedIff(s: Stream, log: seq<Event>, purged: nat, since: int)
    requires Holds(s, log, purged) && since > 0
    ensures Refused(s, since) <==> since < purged
  {
    if s.events != [] {
      assert s.events[0] == log[purged];
    }
  }

  function Max(a: int, b: int): int { if a < b then b else a }

  function Min(a: int, b: int): int { if a < b then a else b }

  /** What a read returns, whatever was checked before it: the history from the later of the cursor
      and the purge, up to the limit. */
  lemma ReadExact(s: Stream, log: seq<Event>, purged: nat, since: int, limit: int)
    requires Holds(s, log, purged) && 0 <= since <= |log|
    ensures var size := SafeLimit(limit);
            var start := Max(since, purged);
            var end := Min(start + size, |log|);
            var page := ReadPage(s, since, limit);
            && page == Page(log[start..end], |log| - start > size, if end > start then end else since)
  {
    hide *;
    NewerRows(s, log, purged, since);
    MaxMin(log, purged, since, SafeLimit(limit));
    var start := Max(since, purged);
    FirstPage(log, start, SafeLimit(limit));
    PageOfRows(s, since, limit, log[start..]);
  }

  lemma MaxMin(log: seq<Event>, purged: nat, since: int, size: nat)
    requires purged <= |log| && 0 <= since <= |log|
    ensures var start := Max(since, purged); 0 <= start <= Min(start + size, |log|) <= |log|
  {
  }

  /** A page in terms of the rows beyond the cursor. */
  lemma PageOfRows(s: Stream, since: int, limit: int, newer: seq<Event>)
    requires Filter(NewerThan(since), s.events) == newer
    ensures var rows := Take(SafeLimit(limit) + 1, newer);
            var page := if |rows| > SafeLimit(limit) then rows[..SafeLimit(limit)] else rows;
            ReadPage(s, since, limit)
              == Page(page, |rows| > SafeLimit(limit), if page != [] then page[|page| - 1].sequence else since)
  {
    hide Filter, NewerThan, SafeLimit, Take;
  }

  lemma NewerRows(s: Stream, log: seq<Event>, purged: nat, since: int)
    requires Holds(s, log, purged) && 0 <= since <= |log|
    ensures Filter(NewerThan(since), s.events) == log[Max(since, purged)..]
    ensures Numbered(log) && purged <= |log|
  {
    hide *;
    NewerIff(s, log, purged, since);
    FilterCut(NewerThan(since), s.events, Max(since, purged) - purged);
  }

  lemma NewerIff(s: Stream, log: seq<Event>, purged: nat, since: int)
    requires Holds(s, log, purged) && 0 <= since <= |log|
    ensures Numbered(log) && purged <= |log|
    ensures var k := Max(since, purged) - purged;
            && 0 <= k <= |s.events| && s.events[k..] == log[Max(since, purged)..]
            && (forall i :: 0 <= i < k ==> !NewerThan(since)(s.events[i]))
            && forall i :: k <= i < |s.events| ==> NewerThan(since)(s.events[i])
  {
    forall i | 0 <= i < |s.events| ensures s.events[i].sequence == purged + i + 1 {
      assert s.events[i] == log[purged + i];
    }
    hide UniqueKeys;
  }

  lemma FirstPage(log: seq<Event>, start: nat, size: nat)
    requires start <= |log| && size > 0 && Numbered(log)
    ensures var rows, end := Take(size + 1, log[start..]), Min(start + size, |log|);
            && (|rows| > size <==> |log| - start > size)
            && (|rows| > size ==> rows[..size] == log[start..end])
            && (|rows| <= size ==> rows == log[start..end])
            && (end > start ==> log[start..end][end - start - 1].sequence == end)
  {
  }

  /** A page that follows a check made earlier continues the cursor without a gap if and only if no purge
      has passed the cursor in between, or nothing was left to read. */
  lemma RaceIff(s: Stream, log: seq<Event>, purged: nat, since: nat, limit: int)
    requires Holds(s, log, purged) && since <= |log|
    ensures var page := ReadPage(s, since, limit);
            (since <= page.latest <= |log| && page.rows == log[since..page.latest])
            <==> purged <= since || purged == |log|
  {
    ReadExact(s, log, purged, since, limit);
    var page := ReadPage(s, since, limit);
    var start := Max(since, purged);
    var end := Min(start + SafeLimit(limit), |log|);
    if since < purged < |log| {
      assert page.rows[0] == log[purged] && page.latest == end;
      assert log[since..end][0] == log[since];
    }
  }

  /** A pull from cursor zero, which the check never refuses, leaves a gap exactly when a purge has
      removed some of the history but not all of it. */
  lemma ZeroCursorIff(s: Stream, log: seq<Event>, purged: nat, limit: int)
    requires Holds(s, log, purged)
    ensures var page := GetSyncEvents(s, 0, limit);
            page.Page? &&
              ((page.latest <= |log| && page.rows == log[0..Max(0, page.latest)]) <==> purged == 0 || purged == |log|)
  {
    RaceIff(s, log, purged, 0, limit);
    ReadExact(s, log, purged, 0, limit);
    hide ReadPage, Holds;
  }

  /** A purge that is no prefix leaves a hole that no check notices: the second event was created first. */
  lemma HoleUnnoticed(first: Draft, second: Draft, limit: int)
    requires first.clientUuid != second.clientUuid
    ensures var s := Stream([Event(1, first, 10), Event(2, second, 5)], 2);
            && Holds(s, s.events, 0)
            && GetSyncEvents(s, 1, limit).rows == [Event(2, second, 5)]
            && GetSyncEvents(Purge(s, 7), 1, limit) == Page([], false, 1)
  {
    var e, f := Event(1, first, 10), Event(2, second, 5);
    var s := Stream([e, f], 2);
    var left := Stream([e], 2);
    assert Holds(s, s.events, 0);
    RefusedIff(s, s.events, 0, 1);
    ReadExact(s, s.events, 0, 1, limit);
    assert s.events[1..2] == [f];
    assert [e, f] == [e] + [f];
    FilterAll(CreatedFrom(7), [e]);
    FilterNone(CreatedFrom(7), [f]);
    FilterAppend(CreatedFrom(7), [e], [f]);
    FilterNone(NewerThan(1), [e]);
    hide Filter, Holds, SafeLimit;
  }

  // ----- draining -----------------------------------------------------------------

  /** The cursor and the rows after `n` pulls of an unchanging stream. */
  function PullTimes(s: Stream, since: int, limit: int, n: nat): (int, seq<Event>) {
    if n == 0 then (since, [])
    else
      var (cursor, rows) := PullTimes(s, since, limit, n - 1);
      match GetSyncEvents(s, cursor, limit)
      case Gone => (cursor, rows)
      case Page(more, _, latest) => (latest, rows + more)
  }

  /** One pull, `reach` events after the start or at the end. */
  lemma OnePull(s: Stream, log: seq<Event>, purged: nat, since: nat, limit: int, reach: nat)
    requires Holds(s, log, purged) && purged <= since <= |log|
    ensures var size := SafeLimit(limit);
            var cursor := Min(since + reach, |log|);
            var page := GetSyncEvents(s, cursor, limit);
            && page.Page? && page.latest == Min(since + reach + size, |log|)
            && log[since..cursor] + page.rows == log[since..page.latest]
            && (page.hasMore <==> since + reach + size < |log|)
  {
    hide Holds, ReadPage, Refused, SafeLimit;
    var cursor := Min(since + reach, |log|);
    NotRefused(s, log, purged, cursor);
    ReadExact(s, log, purged, cursor, limit);
    var page := ReadPage(s, cursor, limit);
    assert log[since..cursor] + log[cursor..page.latest] == log[since..page.latest];
  }

  lemma {:induction false} PullsReach(s: Stream, log: seq<Event>, purged: nat, since: nat, limit: int, n: nat,
                                      reach: nat)
    requires Holds(s, log, purged) && purged <= since <= |log| && reach == n * SafeLimit(limit)
    ensures PullTimes(s, since, limit, n) == (Min(since + reach, |log|), log[since..Min(since + reach, |log|)])
  {
    hide *;
    MinWithin(log, since, reach);
    PullsStart(s, log, since, limit);
    if n > 0 {
      Multiples(n, SafeLimit(limit));
      var less := reach - SafeLimit(limit);
      MinWithin(log, since, less);
      PullsReach(s, log, purged, since, limit, n - 1, less);
      OnePull(s, log, purged, since, limit, less);
      PullsStep(s, since, limit, n);
    }
  }

  /** After `n` pulls of an unchanging stream the cursor stands `n` limits further or at the end, and
      the next pull says that more is left exactly if it does not reach the end. */
  lemma Drains(s: Stream, log: seq<Event>, purged: nat, since: nat, limit: int, n: nat)
    requires Holds(s, log, purged) && purged <= since <= |log|
    ensures var size := SafeLimit(limit);
            var (cursor, rows) := PullTimes(s, since, limit, n);
            && cursor == Min(since + n * size, |log|)
            && rows == log[since..cursor]
            && GetSyncEvents(s, cursor, limit).Page?
            && (GetSyncEvents(s, cursor, limit).hasMore <==> since + (n + 1) * size < |log|)
  {
    hide *;
    var size := SafeLimit(limit);
    Multiples(n + 1, size);
    MinWithin(log, since, n * size);
    PullsReach(s, log, purged, since, limit, n, n * size);
    OnePull(s, log, purged, since, limit, n * size);
  }

  lemma PullsStart(s: Stream, log: seq<Event>, since: nat, limit: int)
    requires since <= |log|
    ensures PullTimes(s, since, limit, 0) == (since, []) && Min(since + 0, |log|) == since && log[since..since] == []
  {
  }

  lemma MinWithin(log: seq<Event>, since: nat, reach: nat)
    requires since <= |log|
    ensures since <= Min(since + reach, |log|) <= |log|
  {
  }

  lemma PullsStep(s: Stream, since: int, limit: int, n: nat)
    requires n > 0
    ensures var (cursor, rows) := PullTimes(s, since, limit, n - 1);
            match GetSyncEvents(s, cursor, limit)
            case Gone => PullTimes(s, since, limit, n) == (cursor, rows)
            case Page(more, _, latest) => PullTimes(s, since, limit, n) == (latest, rows + more)
  {
    hide GetSyncEvents;
  }

  lemma NotRefused(s: Stream, log: seq<Event>, purged: nat, since: int)
    requires Holds(s, log, purged) && purged <= since
    ensures !Refused(s, since)
  {
    if since > 0 {
      RefusedIff(s, log, purged, since);
    }
  }

  lemma Multiples(n: nat, size: nat)
    requires n > 0
    ensures n * size == (n - 1) * size + size && (n - 1) * size >= 0
  {
  }

  lemma DrainedAt(s: Stream, log: seq<Event>, purged: nat, since: nat, limit: int, n: nat)
    requires Holds(s, log, purged) && purged <= since <= |log| && n * SafeLimit(limit) >= |log| - since
    ensures PullTimes(s, since, limit, n) == (|log|, log[since..])
  {
    hide Holds, PullTimes, GetSyncEvents, SafeLimit;
    Drains(s, log, purged, since, limit, n);
    assert log[since..|log|] == log[since..];
  }

  /** Draining ends within the number of pulls that the rest of the history needs at this limit. */
  lemma DrainEnds(s: Stream, log: seq<Event>, purged: nat, since: nat, limit: int)
    requires Holds(s, log, purged) && purged <= since <= |log|
    ensures var size := SafeLimit(limit);
            PullTimes(s, since, limit, (|log| - since + size - 1) / size) == (|log|, log[since..])
  {
    hide *;
    Ceiling(|log| - since, SafeLimit(limit));
    DrainedAt(s, log, purged, since, limit, (|log| - since + SafeLimit(limit) - 1) / SafeLimit(limit));
  }

  lemma Ceiling(left: nat, size: nat)
    requires size > 0
    ensures ((left + size - 1) / size) * size >= left
  {
  }

  // ----- runs -------------------------------------------------------------------------

  /** A client: where it started, its cursor, the rows it was handed and those of them it may see. */
  datatype Client = Client(base: nat, cursor: int, rows: seq<Event>, seen: seq<Event>, gone: bool)

  datatype World = World(stream: Stream, log: seq<Event>, client: Client)

  datatype Step =
    | Append(draft: Draft, createdAt: int)
    | PurgeOld(cutoff: int)
    | Pull(limit: int)
    | Snapshot

  function Next(visible: Event -> bool, w: World, step: Step): World {
    match step
    case Append(draft, createdAt) =>
      var r := AppendSyncEvent(w.stream, draft, createdAt);
      if r.Conflict? || r.stream.last == w.stream.last then w
      else w.(stream := r.stream, log := w.log + [r.event])
    case PurgeOld(cutoff) => w.(stream := Purge(w.stream, cutoff))
    case Snapshot => w.(client := Client(w.stream.last, w.stream.last, [], [], false))
    case Pull(limit) =>
      var c := w.client;
      if c.gone then w
      else
        match GetSyncEvents(w.stream, c.cursor, limit)
        case Gone => w.(client := c.(gone := true))
        case Page(rows, _, latest) =>
          w.(client := c.(cursor := latest, rows := c.rows + rows, seen := c.seen + Filter(visible, rows)))
  }

  function Run(visible: Event -> bool, w: World, steps: seq<Step>): World
    decreases |steps|
  {
    if steps == [] then w else Run(visible, Next(visible, w, steps[0]), steps[1..])
  }

  /** Every purge of the run removes a prefix, and a pull at cursor zero finds the first event still there. */
  predicate Orderly(visible: Event -> bool, w: World, steps: seq<Step>)
    decreases |steps|
  {
    steps == [] || (OrderlyStep(w, steps[0]) && Orderly(visible, Next(visible, w, steps[0]), steps[1..]))
  }

  predicate OrderlyStep(w: World, step: Step) {
    match step
    case PurgeOld(cutoff) => CutsPrefix(w.stream.events, cutoff)
    case Pull(_) => w.client.cursor > 0 || w.stream.events == [] || w.stream.events[0].sequence == 1
    case _ => true
  }

  /** The client was handed exactly the history between its start and its cursor. */
  predicate Exact(visible: Event -> bool, log: seq<Event>, c: Client) {
    && c.base <= c.cursor <= |log|
    && c.rows == log[c.base..c.cursor]
    && c.seen == Filter(visible, log[c.base..c.cursor])
  }

  ghost predicate Good(visible: Event -> bool, w: World) {
    && (exists p: nat :: Holds(w.stream, w.log, p))
    && Exact(visible, w.log, w.client)
  }

  /** A page without gap extends what the client was handed. */
  lemma ExactExtends(visible: Event -> bool, log: seq<Event>, c: Client, rows: seq<Event>, latest: int)
    requires Exact(visible, log, c) && c.cursor <= latest <= |log| && rows == log[c.cursor..latest]
    ensures Exact(visible, log, c.(cursor := latest, rows := c.rows + rows, seen := c.seen + Filter(visible, rows)))
  {
    assert log[c.base..c.cursor] + log[c.cursor..latest] == log[c.base..latest];
    FilterAppend(visible, log[c.base..c.cursor], rows);
    hide Filter;
  }

  lemma PullStep(visible: Event -> bool, w: World, p: nat, limit: int)
    requires Holds(w.stream, w.log, p) && Exact(visible, w.log, w.client)
    requires OrderlyStep(w, Pull(limit))
    ensures var next := Next(visible, w, Pull(limit));
            next.stream == w.stream && next.log == w.log && Exact(visible, next.log, next.client)
  {
    hide Holds, ReadPage, Refused, Filter;
    var c := w.client;
    if !c.gone && !Refused(w.stream, c.cursor) {
      InWindow(w, p, limit);
      RaceIff(w.stream, w.log, p, c.cursor, limit);
      var page := ReadPage(w.stream, c.cursor, limit);
      ExactExtends(visible, w.log, c, page.rows, page.latest);
    }
  }

  lemma InWindow(w: World, p: nat, limit: int)
    requires Holds(w.stream, w.log, p) && OrderlyStep(w, Pull(limit)) && !Refused(w.stream, w.client.cursor)
    requires w.client.cursor >= 0
    ensures p <= w.client.cursor || p == |w.log|
  {
    if w.client.cursor > 0 {
      RefusedIff(w.stream, w.log, p, w.client.cursor);
    } else if p < |w.log| {
      assert w.stream.events[0] == w.log[p];
    }
  }

  lemma ExactGrows(visible: Event -> bool, log: seq<Event>, longer: seq<Event>, c: Client)
    requires Exact(visible, log, c) && log <= longer
    ensures Exact(visible, longer, c)
  {
    hide Filter;
    assert longer[c.base..c.cursor] == log[c.base..c.cursor];
  }

  lemma AppendStep(visible: Event -> bool, w: World, p: nat, step: Step)
    requires step.Append? && Holds(w.stream, w.log, p)
    ensures var next := Next(visible, w, step);
            Holds(next.stream, next.log, p) && w.log <= next.log && next.client == w.client
  {
    var next, c := Next(visible, w, step), w.client;
    AppendHolds(w.stream, w.log, p, step.draft, step.createdAt);
    hide Holds;
  }

  lemma PurgeStep(visible: Event -> bool, w: World, p: nat, step: Step)
    requires step.PurgeOld? && Holds(w.stream, w.log, p) && OrderlyStep(w, step)
    ensures var next := Next(visible, w, step);
            && Holds(next.stream, next.log, p + PrefixBefore(w.stream.events, step.cutoff))
            && next.log == w.log && next.client == w.client
  {
    SuffixPurged(w.stream, w.log, p, step.cutoff);
    hide Holds, Purge;
  }

  lemma SnapshotStep(visible: Event -> bool, w: World, p: nat, step: Step)
    requires step.Snapshot? && Holds(w.stream, w.log, p)
    ensures var next := Next(visible, w, step);
            next.stream == w.stream && next.log == w.log && Exact(visible, next.log, next.client)
  {
    assert w.log[|w.log|..|w.log|] == [];
    hide UniqueKeys, Numbered;
  }

  lemma StepGood(visible: Event -> bool, w: World, step: Step)
    requires Good(visible, w) && OrderlyStep(w, step)
    ensures Good(visible, Next(visible, w, step))
  {
    hide Next, OrderlyStep, Holds, Exact;
    var p: nat :| Holds(w.stream, w.log, p);
    match step
    case Append(_, _) =>
      AppendStep(visible, w, p, step);
      ExactGrows(visible, w.log, Next(visible, w, step).log, w.client);
    case PurgeOld(cutoff) =>
      PurgeStep(visible, w, p, step);
    case Pull(limit) =>
      PullStep(visible, w, p, limit);
    case Snapshot =>
      SnapshotStep(visible, w, p, step);
  }

  /** Over every interleaving of appends, purges, pulls and snapshots, a client is handed exactly the
      visible events between its start and its cursor, in order, without gap or repeat. */
  lemma {:induction false} ExactDelivery(visible: Event -> bool, w: World, steps: seq<Step>)
    requires Good(visible, w) && Orderly(visible, w, steps)
    ensures Good(visible, Run(visible, w, steps))
    decreases |steps|
  {
    if steps != [] {
      StepGood(visible, w, steps[0]);
      ExactDelivery(visible, Next(visible, w, steps[0]), steps[1..]);
    }
  }

  lemma StepBase(visible: Event -> bool, w: World, step: Step)
    requires !step.Snapshot?
    ensures Next(visible, w, step).client.base == w.client.base
  {
    hide AppendSyncEvent, GetSyncEvents, Purge;
  }

  lemma {:induction false} BaseKept(visible: Event -> bool, w: World, steps: seq<Step>)
    requires forall k :: 0 <= k < |steps| ==> !steps[k].Snapshot?
    ensures Run(visible, w, steps).client.base == w.client.base
    decreases |steps|
  {
    if steps != [] {
      StepBase(visible, w, steps[0]);
      BaseKept(visible, Next(visible, w, steps[0]), steps[1..]);
    }
  }

  lemma SnapshotTaken(visible: Event -> bool, w: World)
    requires Good(visible, w)
    ensures var next := Next(visible, w, Snapshot);
            next.client == Client(|w.log|, |w.log|, [], [], false) && next.stream == w.stream && next.log == w.log
  {
  }

  /** A client that takes a snapshot is handed from then on the visible events that come after it, and no other. */
  lemma AfterSnapshot(visible: Event -> bool, w: World, steps: seq<Step>)
    requires Good(visible, w) && Orderly(visible, w, [Snapshot] + steps)
    requires forall k :: 0 <= k < |steps| ==> !steps[k].Snapshot?
    ensures var end := Run(visible, w, [Snapshot] + steps);
            && |w.log| <= end.client.cursor <= |end.log|
            && end.client.seen == Filter(visible, end.log[|w.log|..end.client.cursor])
  {
    var all := [Snapshot] + steps;
    assert all[1..] == steps && all[0] == Snapshot;
    ExactDelivery(visible, w, all);
    SnapshotTaken(visible, w);
    BaseKept(visible, Next(visible, w, Snapshot), steps);
    hide Orderly, Next, Holds;
  }

  // ----- runs with a clock ------------------------------------------------------------------

  predicate Dated(events: seq<Event>) {
    forall i, j :: 0 <= i < j < |events| ==> events[i].createdAt <= events[j].createdAt
  }

  /** Creation times never decrease along the run, nor fall below those already there. */
  predicate DatedSteps(events: seq<Event>, steps: seq<Step>) {
    && Dated(events)
    && (forall e, k :: e in events && 0 <= k < |steps| && steps[k].Append? ==> e.createdAt <= steps[k].createdAt)
    && forall k, l :: 0 <= k < l < |steps| && steps[k].Append? && steps[l].Append? ==>
         steps[k].createdAt <= steps[l].createdAt
  }

  /** A pull at cursor zero finds the first event still there, or nothing. */
  predicate ZeroPullsWhole(visible: Event -> bool, w: World, steps: seq<Step>)
    decreases |steps|
  {
    steps == [] ||
    ((steps[0].Pull? ==> OrderlyStep(w, steps[0])) && ZeroPullsWhole(visible, Next(visible, w, steps[0]), steps[1..]))
  }

  lemma {:induction false} FilterDated(p: Event -> bool, events: seq<Event>)
    requires Dated(events)
    ensures Dated(Filter(p, events))
  {
    if events != [] {
      FilterDated(p, events[1..]);
      var rest := Filter(p, events[1..]);
      forall k | 0 <= k < |rest| ensures events[0].createdAt <= rest[k].createdAt {
        assert rest[k] in rest;
        var n :| 0 <= n < |events[1..]| && events[1..][n] == rest[k];
        assert events[n + 1] == rest[k];
      }
    }
  }

  lemma DatedNext(visible: Event -> bool, w: World, steps: seq<Step>)
    requires steps != [] && DatedSteps(w.stream.events, steps)
    ensures DatedSteps(Next(visible, w, steps[0]).stream.events, steps[1..])
  {
    var step, events := steps[0], w.stream.events;
    var after := Next(visible, w, step).stream.events;
    assert forall k :: 0 <= k < |steps| - 1 ==> steps[1..][k] == steps[k + 1];
    if step.PurgeOld? {
      FilterDated(CreatedFrom(step.cutoff), events);
    } else if step.Append? && after != events {
      assert after == events + [Event(w.stream.last + 1, step.draft, step.createdAt)];
      forall i, j | 0 <= i < j < |after| ensures after[i].createdAt <= after[j].createdAt {
        assert events[i] in events;
      }
    }
  }

  /** When creation times follow the numbering, every purge removes a prefix; so whatever is appended,
      purged and pulled, delivery is exact but for pulls at cursor zero. */
  lemma {:induction false} ExactWhenDated(visible: Event -> bool, w: World, steps: seq<Step>)
    requires Good(visible, w) && DatedSteps(w.stream.events, steps) && ZeroPullsWhole(visible, w, steps)
    ensures Orderly(visible, w, steps) && Good(visible, Run(visible, w, steps))
    decreases |steps|
  {
    if steps != [] {
      var next := Next(visible, w, steps[0]);
      if steps[0].PurgeOld? {
        DatedInOrder(w.stream.events, steps[0].cutoff);
      }
      assert OrderlyStep(w, steps[0]);
      StepGood(visible, w, steps[0]);
      DatedNext(visible, w, steps);
      hide Good, Next, OrderlyStep, DatedSteps;
      ExactWhenDated(visible, next, steps[1..]);
    }
  }
}
