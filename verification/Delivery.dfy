/** At-least-once delivery of offline events: an attempt appends to the stream, materialises a row and
    marks the event applied, and may stop after any of these. */
module Delivery {
  import opened Wrappers
  import opened SyncStream
  import opened Attendance
  import Lists

  /** Who a student identifier names: the user, the class, and whether the user is active. */
  datatype Pupil = Pupil(userId: string, classId: string, active: bool)

  datatype ChatRow = ChatRow(conversationId: string, senderId: string, content: string, createdAt: int)

  /** One tenant's stream with the sequences marked applied, its attendance and its chat rows. */
  datatype Server = Server(stream: Stream, applied: set<nat>, table: Table, chat: map<string, ChatRow>)

  /** How far an attempt comes: a crash, a refused write or a failed mark all end it early. */
  datatype Stop = AfterAppend | AfterLog | AfterRow | Complete

  predicate WritesRow(stop: Stop) { stop == AfterRow || stop == Complete }

  /** One delivery attempt: the draft, the students, the conversation's class and participants as they are
      queried, and the clock at that moment. */
  datatype Attempt = Attempt(draft: Draft, pupils: map<string, Pupil>, chatClass: Option<string>,
                             participants: seq<string>, now: int, logged: bool, stop: Stop)

  /** The class that is stored with a message: the conversation's, or else the one that was sent. */
  function StoredClass(a: Attempt): Option<string>
    requires a.draft.payload.Message?
  {
    if a.chatClass.Some? then a.chatClass else a.draft.payload.chatClass
  }

  /** The payload as it is stored: a chat message is completed with the conversation's class and participants;
      the recipients are computed from these and the sender. */
  function Stored(a: Attempt): Draft {
    if a.draft.entityType == ChatMessage && a.draft.payload.Message?
    then a.draft.(payload := a.draft.payload.(chatClass := StoredClass(a), participants := a.participants))
    else a.draft
  }

  // ----- attendance ---------------------------------------------------------------

  /** The identifier of the student: the payload's, or else the entity's. */
  function StudentKey(d: Draft): string
    requires d.payload.RollCall?
  {
    match d.payload.studentId case Some(id) => id case None => d.entityId
  }

  predicate IsRollCall(d: Draft) {
    d.entityType == Attendance && d.payload.RollCall? && d.payload.classId != "" && StudentKey(d) != "" &&
      d.payload.date != ""
  }

  /** The cell of a roll call, unless the student is unknown, in another class or inactive. */
  function CellOf(pupils: map<string, Pupil>, d: Draft): Option<Cell>
    requires IsRollCall(d)
  {
    if StudentKey(d) !in pupils then None
    else
      var p := pupils[StudentKey(d)];
      if p.classId != d.payload.classId || !p.active then None
      else
        var user := if p.userId != "" then p.userId else StudentKey(d);
        Some(Cell(d.payload.classId, user, d.payload.date, match d.payload.period case Some(n) => n case None => 1))
  }

  function StatusOf(d: Draft): string
    requires IsRollCall(d)
  {
    match d.payload.status case Some(s) => s case None => "PRESENT"
  }

  /** The client's time; a roll call without one is dated at the moment of the attempt. */
  function TimeOf(d: Draft, now: int): int
    requires IsRollCall(d)
  {
    match d.payload.markedAt case Some(t) => t case None => now
  }

  /** Steps three and four for a roll call whose event, numbered `seqNo`, is not yet applied. */
  function TakeRollCall(w: Server, a: Attempt, seqNo: nat): Server
    requires IsRollCall(a.draft)
  {
    match CellOf(a.pupils, a.draft)
    case None => w.(applied := w.applied + {seqNo})
    case Some(cell) =>
      var table := SyncMark(w.table, cell, StatusOf(a.draft), TimeOf(a.draft, a.now), a.now,
          Writes(a.logged, WritesRow(a.stop)));
      w.(table := table, applied := if a.stop == Complete then w.applied + {seqNo} else w.applied)
  }

  // ----- chat -------------------------------------------------------------------------

  function MessageId(d: Draft): string { if d.entityId != "" then d.entityId else d.clientUuid }

  predicate IsMessage(d: Draft) {
    d.entityType == ChatMessage && d.payload.Message? && d.payload.conversationId != "" && d.payload.senderId != ""
    && d.payload.content != ""
  }

  /** The row of a message: its creation is dated by the client, or else at the moment of the attempt. */
  function RowOf(a: Attempt): ChatRow
    requires IsMessage(a.draft)
  {
    var p := a.draft.payload;
    ChatRow(p.conversationId, p.senderId, p.content, match p.createdAt case Some(t) => t case None => a.now)
  }

  function TakeMessage(w: Server, a: Attempt, seqNo: nat): Server
    requires IsMessage(a.draft)
  {
    var id := MessageId(a.draft);
    if id in w.chat then w.(applied := w.applied + {seqNo})
    else if !WritesRow(a.stop) then w
    else w.(chat := w.chat[id := RowOf(a)],
            applied := if a.stop == Complete then w.applied + {seqNo} else w.applied)
  }

  // ----- one attempt --------------------------------------------------------------------

  /** Whether the event was recorded and marked applied before this attempt. */
  predicate WasApplied(w: Server, a: Attempt) {
    var known := FindEvent(w.stream.events, a.draft.clientUuid);
    known.Some? && known.value.sequence in w.applied
  }

  /** The database inserts every event as applied, except attendance. */
  function Recorded(w: Server, a: Attempt): (Server, nat)
    requires AppendSyncEvent(w.stream, Stored(a), a.now).Appended?
  {
    var r := AppendSyncEvent(w.stream, Stored(a), a.now);
    var isNew := FindEvent(w.stream.events, a.draft.clientUuid).None?;
    (w.(stream := r.stream,
        applied := if isNew && a.draft.entityType != Attendance then w.applied + {r.event.sequence} else w.applied),
     r.event.sequence)
  }

  predicate KeyTaken(w: Server, a: Attempt) { AppendSyncEvent(w.stream, Stored(a), a.now).Conflict? }

  function Deliver(w: Server, a: Attempt): Server {
    if KeyTaken(w, a) then w
    else
      var (recorded, seqNo) := Recorded(w, a);
      if a.stop == AfterAppend || WasApplied(w, a) then recorded
      else if IsRollCall(a.draft) then TakeRollCall(recorded, a, seqNo)
      else if IsMessage(a.draft) then TakeMessage(recorded, a, seqNo)
      else recorded
  }

  function DeliverAll(w: Server, attempts: seq<Attempt>): Server {
    if attempts == [] then w
    else Deliver(DeliverAll(w, attempts[..|attempts| - 1]), attempts[|attempts| - 1])
  }

  // ----- the service ----------------------------------------------------------------------

  datatype Sent = Accepted | ConflictingKey

  class MobileSyncService {
    var events: seq<Event>
    var lastSequence: nat
    var applied: set<nat>
    var rows: map<Cell, Row>
    var conflicts: seq<LogEntry>
    var messages: map<string, ChatRow>

    function State(): Server
      reads this
    {
      Server(Stream(events, lastSequence), applied, Table(rows, conflicts), messages)
    }

    constructor ()
      ensures State() == Server(Stream([], 0), {}, Table(map[], []), map[])
    {
      events, lastSequence, applied, rows, conflicts, messages := [], 0, {}, map[], [], map[];
    }

    /** `append_sync_event`: the stored event's sequence, or None for a key that is in use. */
    method AppendRpc(draft: Draft, now: int) returns (seqNo: Option<nat>)
      modifies this`events, this`lastSequence, this`applied
      ensures var r := SyncStream.AppendSyncEvent(old(State().stream), draft, now);
              match r
              case Conflict => seqNo == None && State() == old(State())
              case Appended(stream, e) =>
                && seqNo == Some(e.sequence) && State().stream == stream
                && applied == if stream.last > old(lastSequence) && draft.entityType != Attendance
                              then old(applied) + {e.sequence} else old(applied)
    {
      var known := FindEvent(events, draft.clientUuid);
      if known.Some? {
        return if known.value.draft == draft then Some(known.value.sequence) else None;
      }
      lastSequence := lastSequence + 1;
      events := events + [Event(lastSequence, draft, now)];
      if draft.entityType != Attendance {
        applied := applied + {lastSequence};
      }
      return Some(lastSequence);
    }

    /** Writes the row of a roll call: the log first, then the row; the attempt may end between them. */
    method WriteAttendance(cell: Cell, status: string, clientTime: int, now: int, logged: bool, written: bool)
      modifies this`rows, this`conflicts
      ensures Table(rows, conflicts)
           == SyncMark(old(Table(rows, conflicts)), cell, status, clientTime, now, Writes(logged, written))
    {
      var clamped := Clamp(clientTime, now);
      if cell in rows {
        var existing := rows[cell];
        var clientWins := clamped > existing.markedAt;
        if existing.status != status && logged {
          conflicts := conflicts
            + [LogEntry(cell, Row(status, clamped), existing, if clientWins then CLIENT_WINS else SERVER_WINS)];
        }
        if clientWins && written {
          rows := rows[cell := Row(status, clamped)];
        }
      } else if written {
        rows := rows[cell := Row(status, clamped)];
      }
    }

    /** `appendSyncEvent`, up to where the attempt stops. */
    method Append(a: Attempt) returns (sent: Sent)
      modifies this
      ensures State() == Deliver(old(State()), a)
      ensures sent == ConflictingKey <==> KeyTaken(old(State()), a)
    {
      var pre := FindEvent(events, a.draft.clientUuid);
      var preApplied := pre.Some? && pre.value.sequence in applied;
      var seqNo := AppendRpc(Stored(a), a.now);
      if seqNo.None? {
        return ConflictingKey;
      }
      if a.stop == AfterAppend {
        return Accepted;
      }
      if !preApplied && IsRollCall(a.draft) {
        var cell := CellOf(a.pupils, a.draft);
        if cell.None? {
          applied := applied + {seqNo.value};
          return Accepted;
        }
        WriteAttendance(cell.value, StatusOf(a.draft), TimeOf(a.draft, a.now), a.now, a.logged, WritesRow(a.stop));
        if a.stop == Complete {
          applied := applied + {seqNo.value};
        }
      }
      if !preApplied && IsMessage(a.draft) {
        var id, p := MessageId(a.draft), a.draft.payload;
        var createdAt := match p.createdAt case Some(t) => t case None => a.now;
        if id in messages {
          applied := applied + {seqNo.value};
        } else if WritesRow(a.stop) {
          messages := messages[id := ChatRow(p.conversationId, p.senderId, p.content, createdAt)];
          if a.stop == Complete {
            applied := applied + {seqNo.value};
          }
        }
      }
      return Accepted;
    }

    /** `purge_old_sync_events`. */
    method PurgeOldSyncEvents(cutoff: int)
      modifies this`events
      ensures State() == old(State()).(stream := Purge(old(State()).stream, cutoff))
    {
      events := Lists.Filter(CreatedFrom(cutoff), events);
    }

    /** `getSyncEvents` before the visibility filter. */
    method GetSyncEvents(sinceSequence: int, limit: int) returns (page: Page)
      ensures page == SyncStream.GetSyncEvents(State().stream, sinceSequence, limit)
    {
      var safeLimit := SafeLimit(limit);
      if sinceSequence > 0 {
        if events != [] {
          if sinceSequence < events[0].sequence - 1 {
            return Gone;
          }
        } else if lastSequence > 0 && sinceSequence < lastSequence {
          return Gone;
        }
      }
      var fetched := Lists.Take(safeLimit + 1, Lists.Filter(NewerThan(sinceSequence), events));
      var hasMore := |fetched| > safeLimit;
      var pageRows := if hasMore then fetched[..safeLimit] else fetched;
      return Page(pageRows, hasMore, if pageRows != [] then pageRows[|pageRows| - 1].sequence else sinceSequence);
    }
  }
}
