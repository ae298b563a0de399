/** When delivering an event again has no further effect: roll calls, and chat messages. */
module DeliveryOnce {
  import opened Wrappers
  import opened SyncStream
  import opened Attendance
  import opened Delivery

  // ----- the stream under deliveries ------------------------------------------------

  /** Sequences lie within the counter and tell events apart, and only numbers given out are marked. */
  predicate Sound(w: Server) {
    && MarksKnown(w)
    && (forall e :: e in w.stream.events ==> e.sequence <= w.stream.last)
    && forall e, f :: e in w.stream.events && f in w.stream.events && e.sequence == f.sequence ==> e == f
  }

  predicate MarksKnown(w: Server) { forall n :: n in w.applied ==> n <= w.stream.last }

  lemma MarksStayKnown(w: Server, a: Attempt)
    requires Sound(w)
    ensures MarksKnown(Deliver(w, a))
  {
    hide SyncMark;
    if !KeyTaken(w, a) {
      var (recorded, seqNo) := Recorded(w, a);
      assert seqNo <= recorded.stream.last;
    }
  }

  /** The stream holds this draft under its key. */
  predicate Held(w: Server, d: Draft) {
    var known := FindEvent(w.stream.events, d.clientUuid);
    known.Some? && known.value.draft == d
  }

  lemma {:induction false} FindAfterAppend(events: seq<Event>, e: Event, uuid: string)
    ensures FindEvent(events + [e], uuid)
         == if FindEvent(events, uuid).Some? then FindEvent(events, uuid)
            else if e.draft.clientUuid == uuid then Some(e) else None
  {
    if events != [] {
      assert (events + [e])[1..] == events[1..] + [e];
      FindAfterAppend(events[1..], e, uuid);
    } else {
      assert [e][1..] == [] && events + [e] == [e];
    }
  }

  lemma StoredKeepsKey(a: Attempt)
    ensures Stored(a).clientUuid == a.draft.clientUuid && Stored(a).entityType == a.draft.entityType
  {
  }

  /** An attempt appends at most once and disturbs no other key. */
  lemma DeliverStream(w: Server, a: Attempt)
    requires Sound(w)
    ensures var after := Deliver(w, a);
            && Sound(after)
            && after.stream == (if KeyTaken(w, a) then w.stream else AppendSyncEvent(w.stream, Stored(a), a.now).stream)
            && (!KeyTaken(w, a) ==> Held(after, Stored(a)))
            && forall uuid :: FindEvent(w.stream.events, uuid).Some? ==>
                 FindEvent(after.stream.events, uuid) == FindEvent(w.stream.events, uuid)
  {
    var after := Deliver(w, a);
    MarksStayKnown(w, a);
    if !KeyTaken(w, a) {
      var r := AppendSyncEvent(w.stream, Stored(a), a.now);
      assert after.stream == r.stream;
      if FindEvent(w.stream.events, a.draft.clientUuid).None? {
        assert r.stream.events == w.stream.events + [r.event];
        forall uuid ensures FindEvent(w.stream.events, uuid).Some? ==>
                              FindEvent(after.stream.events, uuid) == FindEvent(w.stream.events, uuid) {
          FindAfterAppend(w.stream.events, r.event, uuid);
        }
        FindAfterAppend(w.stream.events, r.event, a.draft.clientUuid);
      }
    }
  }

  /** The event has been recorded and marked applied. */
  predicate Settled(w: Server, uuid: string) {
    var known := FindEvent(w.stream.events, uuid);
    known.Some? && known.value.sequence in w.applied
  }

  // ----- re-delivery of a roll call ----------------------------------------------------

  /** The roll call is dated, and no further ahead than the tolerated skew. */
  predicate NotAhead(d: Draft, now: int)
    requires IsRollCall(d)
  {
    d.payload.markedAt.Some? && d.payload.markedAt.value <= now + SKEW
  }

  /** The row already carries this roll call or a later one. */
  predicate Absorbed(w: Server, d: Draft, cell: Cell)
    requires IsRollCall(d)
  {
    d.payload.markedAt.Some? && cell in w.table.rows && w.table.rows[cell].markedAt >= d.payload.markedAt.value
  }

  /** Every further attempt of the roll call finds the student where the first one did, or not at all. */
  predicate Resolves(rest: seq<Attempt>, d: Draft, cell: Cell)
    requires IsRollCall(d)
  {
    forall i :: 0 <= i < |rest| && rest[i].draft.clientUuid == d.clientUuid ==> Finds(rest[i], d, cell)
  }

  predicate Finds(b: Attempt, d: Draft, cell: Cell)
    requires IsRollCall(d)
  {
    CellOf(b.pupils, d) == Some(cell) || CellOf(b.pupils, d).None?
  }

  function Marks(w: Server, uuid: string): set<nat> {
    match FindEvent(w.stream.events, uuid)
    case None => {}
    case Some(e) => {e.sequence}
  }

  /** Equal but for the conflict log and the applied mark of one key. */
  predicate SameBut(v: Server, w: Server, uuid: string) {
    && v.stream == w.stream && v.table.rows == w.table.rows && v.chat == w.chat
    && v.applied - Marks(v, uuid) == w.applied - Marks(w, uuid)
  }

  lemma FirstWrite(w: Server, a: Attempt, cell: Cell)
    requires Sound(w) && IsRollCall(a.draft) && NotAhead(a.draft, a.now) && WritesRow(a.stop)
    requires !KeyTaken(w, a) && !WasApplied(w, a) && CellOf(a.pupils, a.draft) == Some(cell)
    ensures var after := Deliver(w, a);
            && Held(after, a.draft) && Absorbed(after, a.draft, cell)
            && SameBut(after, Deliver(w, a.(stop := Complete)), a.draft.clientUuid)
  {
    DeliverStream(w, a);
    assert Stored(a) == a.draft;
    var (recorded, seqNo) := Recorded(w, a);
    var after, done := Deliver(w, a), Deliver(w, a.(stop := Complete));
    assert done.stream == after.stream == recorded.stream;
    assert Marks(after, a.draft.clientUuid) == {seqNo};
  }

  /** A further attempt of an absorbed roll call changes nothing but the log and its applied mark. */
  lemma RepeatKeeps(w: Server, d: Draft, cell: Cell, b: Attempt)
    requires Sound(w) && IsRollCall(d) && Held(w, d) && Absorbed(w, d, cell)
    requires b.draft.clientUuid == d.clientUuid && Finds(b, d, cell)
    ensures SameBut(Deliver(w, b), w, d.clientUuid)
  {
    StoredKeepsKey(b);
    if !KeyTaken(w, b) {
      assert Stored(b) == d && b.draft == d;
      var (recorded, seqNo) := Recorded(w, b);
      assert recorded == w && Marks(w, d.clientUuid) == {seqNo};
    }
  }

  /** No attempt takes a row back in time. */
  lemma AbsorbedStays(w: Server, d: Draft, cell: Cell, b: Attempt)
    requires IsRollCall(d) && Absorbed(w, d, cell)
    ensures Absorbed(Deliver(w, b), d, cell)
  {
    if !KeyTaken(w, b) && IsRollCall(b.draft) {
      var (recorded, seqNo) := Recorded(w, b);
      assert recorded.table == w.table;
    }
  }

  /** Equal but for the conflict log and one applied mark. */
  predicate SameExcept(v: Server, w: Server, mine: nat) {
    v.stream == w.stream && v.table.rows == w.table.rows && v.chat == w.chat && v.applied - {mine} == w.applied - {mine}
  }

  lemma SameMarks(x: set<nat>, y: set<nat>, mine: nat, n: nat)
    requires x - {mine} == y - {mine}
    ensures x + {n} - {mine} == y + {n} - {mine}
    ensures n != mine ==> (n in x <==> n in y)
  {
    assert x + {n} - {mine} == (x - {mine}) + ({n} - {mine});
    assert y + {n} - {mine} == (y - {mine}) + ({n} - {mine});
    assert n in x - {mine} <==> n in y - {mine};
  }

  lemma RecordedSame(v: Server, w: Server, mine: Event, b: Attempt)
    requires Sound(w) && SameExcept(v, w, mine.sequence) && !KeyTaken(w, b)
    requires mine in w.stream.events && mine.draft.clientUuid != b.draft.clientUuid
    ensures SameExcept(Recorded(v, b).0, Recorded(w, b).0, mine.sequence)
    ensures Recorded(v, b).1 == Recorded(w, b).1
    ensures WasApplied(v, b) <==> WasApplied(w, b)
  {
    StoredKeepsKey(b);
    var n := Recorded(w, b).1;
    assert n != mine.sequence;
    SameMarks(v.applied, w.applied, mine.sequence, n);
  }

  lemma TakeSame(v: Server, w: Server, mine: nat, b: Attempt, n: nat)
    requires SameExcept(v, w, mine)
    ensures IsRollCall(b.draft) ==> SameExcept(TakeRollCall(v, b, n), TakeRollCall(w, b, n), mine)
    ensures IsMessage(b.draft) ==> SameExcept(TakeMessage(v, b, n), TakeMessage(w, b, n), mine)
  {
    SameMarks(v.applied, w.applied, mine, n);
  }

  lemma SameStep(v: Server, w: Server, uuid: string, b: Attempt)
    requires Sound(v) && Sound(w) && SameBut(v, w, uuid) && FindEvent(w.stream.events, uuid).Some?
    requires b.draft.clientUuid != uuid
    ensures SameBut(Deliver(v, b), Deliver(w, b), uuid)
  {
    var mine := FindEvent(w.stream.events, uuid).value;
    if !KeyTaken(w, b) {
      RecordedSame(v, w, mine, b);
      TakeSame(Recorded(v, b).0, Recorded(w, b).0, mine.sequence, b, Recorded(w, b).1);
    }
    DeliverStream(v, b);
    DeliverStream(w, b);
    hide Recorded, Sound, TakeRollCall, TakeMessage, WasApplied, SyncStream.AppendSyncEvent;
  }

  /** The attempts of other keys. */
  function Without(attempts: seq<Attempt>, uuid: string): seq<Attempt> {
    if attempts == [] then []
    else
      var n := |attempts| - 1;
      var rest := Without(attempts[..n], uuid);
      if attempts[n].draft.clientUuid == uuid then rest else rest + [attempts[n]]
  }

  lemma RunLast(w: Server, attempts: seq<Attempt>, b: Attempt)
    ensures DeliverAll(w, attempts + [b]) == Deliver(DeliverAll(w, attempts), b)
  {
    assert (attempts + [b])[..|attempts|] == attempts;
  }

  lemma {:induction false} RunSound(w: Server, attempts: seq<Attempt>, uuid: string)
    requires Sound(w) && FindEvent(w.stream.events, uuid).Some?
    ensures var after := DeliverAll(w, attempts);
            Sound(after) && FindEvent(after.stream.events, uuid) == FindEvent(w.stream.events, uuid)
  {
    if attempts != [] {
      var n := |attempts| - 1;
      RunSound(w, attempts[..n], uuid);
      DeliverStream(DeliverAll(w, attempts[..n]), attempts[n]);
      hide Sound, Deliver;
    }
  }

  lemma {:induction false} RunAbsorbed(w: Server, attempts: seq<Attempt>, d: Draft, cell: Cell)
    requires IsRollCall(d) && Absorbed(w, d, cell)
    ensures Absorbed(DeliverAll(w, attempts), d, cell)
  {
    if attempts != [] {
      var n := |attempts| - 1;
      RunAbsorbed(w, attempts[..n], d, cell);
      AbsorbedStays(DeliverAll(w, attempts[..n]), d, cell, attempts[n]);
    }
  }

  /** Once a roll call is absorbed, its further attempts can be left out of any run, and the run may as
      well start from a state that differs in the mark of that key alone. */
  lemma {:induction false} RepeatsDrop(v: Server, w: Server, d: Draft, cell: Cell, rest: seq<Attempt>)
    requires Sound(v) && Sound(w) && IsRollCall(d) && Held(v, d) && Absorbed(v, d, cell) && SameBut(v, w, d.clientUuid)
    requires Resolves(rest, d, cell)
    ensures SameBut(DeliverAll(v, rest), DeliverAll(w, Without(rest, d.clientUuid)), d.clientUuid)
  {
    if rest != [] {
      var n := |rest| - 1;
      var uuid, before, b := d.clientUuid, rest[..n], rest[n];
      var others := Without(before, uuid);
      assert Resolves(before, d, cell);
      RepeatsDrop(v, w, d, cell, before);
      RunSound(v, before, uuid);
      RunSound(w, others, uuid);
      RunAbsorbed(v, before, d, cell);
      var v', w' := DeliverAll(v, before), DeliverAll(w, others);
      hide Sound, Deliver, Absorbed, FindEvent;
      if b.draft.clientUuid == uuid {
        RepeatKeeps(v', d, cell, b);
      } else {
        SameStep(v', w', uuid, b);
        RunLast(w, others, b);
      }
    }
  }

  /** A roll call has its effect exactly once if its first attempt completed or found no such student, or
      if it is not dated ahead and the student stays where it is: whatever else is delivered and however
      often it is sent again, the stream, the rows and the messages end as if the first attempt that wrote
      its row had completed and none had followed. */
  lemma ExactlyOnce(w: Server, a: Attempt, rest: seq<Attempt>)
    requires Sound(w) && IsRollCall(a.draft) && WritesRow(a.stop) && !KeyTaken(w, a) && !WasApplied(w, a)
    requires a.stop == Complete || CellOf(a.pupils, a.draft).None?
             || (NotAhead(a.draft, a.now) && Resolves(rest, a.draft, CellOf(a.pupils, a.draft).value))
    ensures var uuid := a.draft.clientUuid;
            SameBut(DeliverAll(Deliver(w, a), rest), DeliverAll(Deliver(w, a.(stop := Complete)), Without(rest, uuid)),
              uuid)
  {
    var done, cell := Deliver(w, a.(stop := Complete)), CellOf(a.pupils, a.draft);
    DeliverStream(w, a);
    DeliverStream(w, a.(stop := Complete));
    if a.stop == Complete || cell.None? {
      TakenSettles(w, a);
      SettledRepeats(Deliver(w, a), a.draft.clientUuid, rest);
    } else {
      FirstWrite(w, a, cell.value);
      hide *;
      RepeatsDrop(Deliver(w, a), done, a.draft, cell.value, rest);
    }
  }

  lemma TakenSettles(w: Server, a: Attempt)
    requires Sound(w) && IsRollCall(a.draft) && WritesRow(a.stop) && !KeyTaken(w, a) && !WasApplied(w, a)
    requires a.stop == Complete || CellOf(a.pupils, a.draft).None?
    ensures Deliver(w, a) == Deliver(w, a.(stop := Complete)) && Settled(Deliver(w, a), a.draft.clientUuid)
  {
    StoredRollCall(a);
    DeliverStream(w, a);
    assert Stored(a.(stop := Complete)) == Stored(a);
    var (recorded, seqNo) := Recorded(w, a);
    hide SyncMark;
  }

  /** An attempt that ends before the row leaves every row and message alone. */
  lemma EarlyStop(w: Server, a: Attempt)
    requires !WritesRow(a.stop)
    ensures var after := Deliver(w, a); after.table.rows == w.table.rows && after.chat == w.chat
  {
  }

  /** What an attempt of a roll call makes of the rows. */
  function RowsAfter(rows: map<Cell, Row>, a: Attempt): map<Cell, Row>
    requires IsRollCall(a.draft)
  {
    match CellOf(a.pupils, a.draft)
    case None => rows
    case Some(cell) =>
      if !WritesRow(a.stop) then rows
      else SyncMark(Table(rows, []), cell, StatusOf(a.draft), TimeOf(a.draft, a.now), a.now, Writes(false, true)).rows
  }

  lemma RollCallRows(w: Server, a: Attempt)
    requires IsRollCall(a.draft) && !KeyTaken(w, a)
    ensures var after := Deliver(w, a);
            && after.chat == w.chat
            && after.table.rows == (if WasApplied(w, a) then w.table.rows else RowsAfter(w.table.rows, a))
            && (a.stop != Complete && CellOf(a.pupils, a.draft).Some? ==> after.applied == w.applied)
  {
    assert Stored(a) == a.draft;
    hide SyncStream.AppendSyncEvent, CellOf, IsRollCall, StatusOf, TimeOf;
  }

  lemma StoredRollCall(a: Attempt)
    requires IsRollCall(a.draft)
    ensures Stored(a) == a.draft
  {
  }

  /** An attempt that found no such student and was not cut short at once is done with for good. */
  predicate GivenUp(early: Attempt)
    requires IsRollCall(early.draft)
  {
    early.stop != AfterAppend && CellOf(early.pupils, early.draft).None?
  }

  lemma EarlyState(w: Server, early: Attempt, a: Attempt)
    requires Sound(w) && IsRollCall(a.draft) && early.draft == a.draft && !WritesRow(early.stop)
    requires !KeyTaken(w, a) && !WasApplied(w, a)
    ensures var between := Deliver(w, early);
            && !KeyTaken(w, early) && !KeyTaken(between, a)
            && (WasApplied(between, a) <==> GivenUp(early))
            && AppendSyncEvent(between.stream, Stored(a), a.now).stream == between.stream
            && |between.stream.events| == |AppendSyncEvent(w.stream, Stored(a), a.now).stream.events|
  {
    StoredRollCall(a);
    StoredRollCall(early);
    DeliverStream(w, early);
    RollCallRows(w, early);
    hide SyncMark, IsRollCall;
  }

  /** After a roll call's attempt that ended before its row, the next attempt does to the rows and messages
      what it would have done as the first, unless the early one found no such student: then none writes. */
  lemma EarlyThenLater(w: Server, early: Attempt, a: Attempt)
    requires Sound(w) && IsRollCall(a.draft) && early.draft == a.draft && !WritesRow(early.stop)
    requires !KeyTaken(w, a) && !WasApplied(w, a)
    ensures var after, once := Deliver(Deliver(w, early), a), Deliver(w, a);
            && after.table.rows == (if GivenUp(early) then w.table.rows else once.table.rows)
            && after.chat == once.chat && |after.stream.events| == |once.stream.events|
  {
    var between := Deliver(w, early);
    EarlyStop(w, early);
    EarlyState(w, early, a);
    DeliverStream(w, early);
    DeliverStream(between, a);
    DeliverStream(w, a);
    RollCallRows(between, a);
    RollCallRows(w, a);
    hide *;
  }

  /** The state after a row is written and before the mark. */
  predicate Unmarked(w: Server, a: Attempt, cell: Cell) {
    && Held(w, a.draft) && !WasApplied(w, a) && IsRollCall(a.draft) && CellOf(a.pupils, a.draft) == Some(cell)
    && w.table.rows == w.table.rows[cell := Row(StatusOf(a.draft), Clamp(TimeOf(a.draft, a.now), a.now))]
  }

  /** Whether sending it again can move the row depends on its date alone while the student is found where
      it was: it never does exactly if the roll call was dated and not ahead when its row was written. */
  lemma RepeatIff(w: Server, a: Attempt, cell: Cell)
    requires Unmarked(w, a, cell)
    ensures (forall later :: later >= a.now ==>
               Deliver(w, a.(now := later, stop := Complete)).table.rows == w.table.rows)
            <==> NotAhead(a.draft, a.now)
  {
    var d := a.draft;
    forall later | later >= a.now
      ensures Deliver(w, a.(now := later, stop := Complete)).table.rows == w.table.rows
              <==> Clamp(TimeOf(d, later), later) <= w.table.rows[cell].markedAt
    {
      assert Stored(a.(now := later, stop := Complete)) == d;
    }
    var next := a.now + 1;
    assert Deliver(w, a.(now := next, stop := Complete)).table.rows == w.table.rows
           <==> Clamp(TimeOf(d, next), next) <= w.table.rows[cell].markedAt;
  }

  /** An online save that comes between a written row and its repeat survives the repeat exactly if the
      roll call is not dated after it. */
  lemma SavedBetween(w: Server, a: Attempt, cell: Cell, other: string, later: int)
    requires Unmarked(w, a, cell) && NotAhead(a.draft, later) && later >= a.now
    ensures var saved := w.(table := RestMarks(w.table, [Mark(cell, other)], later, BOTH));
            var repeated := Deliver(saved, a.(now := later, stop := Complete));
            && saved.table.rows[cell] == Row(other, later)
            && (repeated.table.rows == saved.table.rows <==> a.draft.payload.markedAt.value <= later)
  {
    assert [Mark(cell, other)][..0] == [];
    assert Upsert(w.table.rows, [], later) == w.table.rows;
    assert Stored(a.(now := later, stop := Complete)) == a.draft;
  }

  // ----- chat messages -----------------------------------------------------------------------

  /** The first delivery of a message whose key is new. */
  predicate FirstOf(w: Server, a: Attempt) {
    IsMessage(a.draft) && FindEvent(w.stream.events, a.draft.clientUuid).None?
  }

  /** Events of other keys do not claim the message's identifier. */
  predicate Apart(rest: seq<Attempt>, d: Draft) {
    forall i :: 0 <= i < |rest| ==>
      rest[i].draft.clientUuid == d.clientUuid || MessageId(rest[i].draft) != MessageId(d)
  }

  lemma FirstSettles(w: Server, a: Attempt)
    requires Sound(w) && FirstOf(w, a)
    ensures var after := Deliver(w, a);
            && Settled(after, a.draft.clientUuid)
            && (MessageId(a.draft) in after.chat <==> MessageId(a.draft) in w.chat || WritesRow(a.stop))
  {
    DeliverStream(w, a);
    StoredKeepsKey(a);
    assert !KeyTaken(w, a);
    var (recorded, seqNo) := Recorded(w, a);
    assert seqNo in recorded.applied;
    assert Deliver(w, a).stream == recorded.stream;
    FindAfterAppend(w.stream.events, AppendSyncEvent(w.stream, Stored(a), a.now).event, a.draft.clientUuid);
  }

  lemma SettledStays(w: Server, d: Draft, b: Attempt)
    requires Sound(w) && Settled(w, d.clientUuid)
    requires b.draft.clientUuid == d.clientUuid || MessageId(b.draft) != MessageId(d)
    ensures var after := Deliver(w, b);
            Settled(after, d.clientUuid) && (MessageId(d) in after.chat <==> MessageId(d) in w.chat)
  {
    SettledKey(w, d.clientUuid, b);
    if b.draft.clientUuid == d.clientUuid {
      SettledRepeat(w, b);
    } else {
      OtherMessage(w, MessageId(d), b);
    }
    hide *;
  }

  lemma OtherMessage(w: Server, id: string, b: Attempt)
    requires MessageId(b.draft) != id
    ensures id in Deliver(w, b).chat <==> id in w.chat
  {
    hide SyncStream.AppendSyncEvent, SyncMark, CellOf;
  }

  lemma {:induction false} SettledRun(w: Server, d: Draft, rest: seq<Attempt>)
    requires Sound(w) && Settled(w, d.clientUuid) && Apart(rest, d)
    ensures var after := DeliverAll(w, rest);
            && Sound(after) && Settled(after, d.clientUuid)
            && (MessageId(d) in after.chat <==> MessageId(d) in w.chat)
  {
    if rest != [] {
      var n := |rest| - 1;
      assert Apart(rest[..n], d);
      SettledRun(w, d, rest[..n]);
      var before := DeliverAll(w, rest[..n]);
      SettledStays(before, d, rest[n]);
      DeliverStream(before, rest[n]);
      hide Sound, Settled, Deliver;
    }
  }

  /** What the first delivery of a message writes. */
  lemma FirstDelivered(w: Server, a: Attempt)
    requires Sound(w) && FirstOf(w, a)
    ensures var after, id := Deliver(w, a), MessageId(a.draft);
            && after.table == w.table
            && after.chat == (if id !in w.chat && WritesRow(a.stop) then w.chat[id := RowOf(a)] else w.chat)
            && after.stream.events == w.stream.events + [Event(w.stream.last + 1, Stored(a), a.now)]
            && after.applied == w.applied + {w.stream.last + 1}
  {
    StoredKeepsKey(a);
  }

  /** The first delivery of a message does all that a completed one does exactly if it comes as far as the
      row, or the message's identifier is taken. */
  lemma FirstCompleteIff(w: Server, a: Attempt)
    requires Sound(w) && FirstOf(w, a)
    ensures Deliver(w, a) == Deliver(w, a.(stop := Complete)) <==> WritesRow(a.stop) || MessageId(a.draft) in w.chat
  {
    var done := a.(stop := Complete);
    FirstDelivered(w, a);
    FirstDelivered(w, done);
    DeliverStream(w, a);
    DeliverStream(w, done);
    assert Stored(done) == Stored(a);
    hide Deliver, Sound;
  }

  /** A further attempt under a settled key changes nothing at all. */
  lemma SettledRepeat(w: Server, b: Attempt)
    requires Settled(w, b.draft.clientUuid)
    ensures Deliver(w, b) == w
  {
    StoredKeepsKey(b);
  }

  /** Settled keys stay settled under every delivery. */
  lemma SettledKey(w: Server, uuid: string, b: Attempt)
    requires Sound(w) && Settled(w, uuid)
    ensures Settled(Deliver(w, b), uuid)
  {
    DeliverStream(w, b);
    hide Sound, SyncStream.AppendSyncEvent, SyncMark;
  }

  lemma {:induction false} SettledRepeats(w: Server, uuid: string, rest: seq<Attempt>)
    requires Sound(w) && Settled(w, uuid)
    ensures var after := DeliverAll(w, rest);
            && Sound(after) && Settled(after, uuid)
            && after == DeliverAll(w, Without(rest, uuid))
  {
    if rest != [] {
      hide Sound, Settled, Deliver;
      var n := |rest| - 1;
      var others, b := Without(rest[..n], uuid), rest[n];
      SettledRepeats(w, uuid, rest[..n]);
      var before := DeliverAll(w, rest[..n]);
      DeliverStream(before, b);
      SettledKey(before, uuid, b);
      if b.draft.clientUuid == uuid {
        SettledRepeat(before, b);
      } else {
        RunLast(w, others, b);
      }
    }
  }

  /** However often a message is sent again and whatever is delivered besides, the whole state ends as if
      only its first delivery had been made; that one is as good as a completed delivery exactly if it came
      as far as the row or the identifier was taken.  For the event is recorded as applied from the start,
      and no later attempt inserts the row. */
  lemma MessageOnce(w: Server, a: Attempt, rest: seq<Attempt>)
    requires Sound(w) && FirstOf(w, a)
    ensures DeliverAll(Deliver(w, a), rest)
         == DeliverAll(Deliver(w, a), Without(rest, a.draft.clientUuid))
    ensures Deliver(w, a) == Deliver(w, a.(stop := Complete)) <==> WritesRow(a.stop) || MessageId(a.draft) in w.chat
  {
    FirstSettles(w, a);
    DeliverStream(w, a);
    FirstCompleteIff(w, a);
    SettledRepeats(Deliver(w, a), a.draft.clientUuid, rest);
    hide *;
  }

  /** A message becomes a row if and only if its very first delivery came as far as the row, or its
      identifier was taken before; a row that was written bears the payload for good. */
  lemma MessageIff(w: Server, a: Attempt, rest: seq<Attempt>)
    requires Sound(w) && FirstOf(w, a) && Apart(rest, a.draft)
    ensures var id := MessageId(a.draft);
            var chat := DeliverAll(Deliver(w, a), rest).chat;
            && (id in chat <==> id in w.chat || WritesRow(a.stop))
            && (id in chat ==> chat[id] == if id in w.chat then w.chat[id] else RowOf(a))
  {
    FirstSettles(w, a);
    FirstDelivered(w, a);
    DeliverStream(w, a);
    SettledRun(Deliver(w, a), a.draft, rest);
    if MessageId(a.draft) in Deliver(w, a).chat {
      MessagesKept(Deliver(w, a), rest, MessageId(a.draft));
    }
    hide *;
  }

  lemma MessageStays(w: Server, a: Attempt, id: string)
    requires id in w.chat
    ensures var after := Deliver(w, a); id in after.chat && after.chat[id] == w.chat[id]
  {
    hide SyncStream.AppendSyncEvent, SyncMark;
  }

  /** A message row is never overwritten, whatever is delivered. */
  lemma {:induction false} MessagesKept(w: Server, rest: seq<Attempt>, id: string)
    requires id in w.chat
    ensures var after := DeliverAll(w, rest); id in after.chat && after.chat[id] == w.chat[id]
  {
    if rest != [] {
      var n := |rest| - 1;
      MessagesKept(w, rest[..n], id);
      MessageStays(DeliverAll(w, rest[..n]), rest[n], id);
      hide Deliver;
    }
  }

  /** Sending a message again is refused exactly if its conversation's participants, in the order in which
      they are queried, or the class stored with it have changed since. */
  lemma ResentMessageRefusedIff(w: Server, a: Attempt, b: Attempt)
    requires IsMessage(a.draft) && b.draft == a.draft && Held(w, Stored(a))
    ensures KeyTaken(w, b) <==> b.participants != a.participants || StoredClass(b) != StoredClass(a)
  {
    StoredKeepsKey(a);
    StoredKeepsKey(b);
  }
}
