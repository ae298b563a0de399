/** What a first delivery makes of its payload, and the row that an offline and an online roll call of one
    student share. */
module Materialised {
  import opened Wrappers
  import opened SyncStream
  import opened Attendance
  import opened Delivery

  // ----- roll calls --------------------------------------------------------------------

  /** The first delivery of an event that carries a roll call, and that nothing cuts short. */
  predicate RollCallDelivered(w: Server, a: Attempt) {
    && FindEvent(w.stream.events, a.draft.clientUuid).None?
    && a.draft.entityType == Attendance && a.draft.payload.RollCall? && a.stop == Complete
  }

  /** The student is found under the key, in the class, and active. */
  predicate Attends(pupils: map<string, Pupil>, key: string, classId: string) {
    key in pupils && pupils[key].classId == classId && pupils[key].active
  }

  /** At most the cell changes, to a row with this status and time; it stays if it holds a time as late. */
  predicate Marked(before: map<Cell, Row>, after: map<Cell, Row>, cell: Cell, status: string, time: int) {
    && after.Keys == before.Keys + {cell}
    && (forall c :: c in before && c != cell ==> after[c] == before[c])
    && after[cell] == if cell in before && before[cell].markedAt >= time then before[cell] else Row(status, time)
  }

  lemma FirstTable(w: Server, a: Attempt)
    requires RollCallDelivered(w, a)
    ensures var after := Deliver(w, a);
            && after.chat == w.chat
            && after.table == if !IsRollCall(a.draft) then w.table else
                 match CellOf(a.pupils, a.draft)
                 case None => w.table
                 case Some(cell) => SyncMark(w.table, cell, StatusOf(a.draft), TimeOf(a.draft, a.now), a.now,
                      Writes(a.logged, true))
  {
    hide SyncMark, CellOf, StatusOf, TimeOf, IsRollCall;
    assert Stored(a) == a.draft;
  }

  lemma MarkedBy(t: Table, cell: Cell, status: string, sent: int, now: int, logged: bool)
    ensures Marked(t.rows, SyncMark(t, cell, status, sent, now, Writes(logged, true)).rows, cell, status,
                   if sent <= now + 60_000 then sent else now + 60_000)
  {
  }

  /** A roll call is filed under the student's user, whichever identifier it was sent with, on the class,
      date and period of the payload, with its status, at its own time but at most a minute ahead; without
      class, student or date, or for a student who is not found active in that class, it changes no row. */
  lemma RollCallWrites(w: Server, a: Attempt)
    requires RollCallDelivered(w, a)
    ensures var p := a.draft.payload;
            var key := if p.studentId.Some? then p.studentId.value else a.draft.entityId;
            var after := Deliver(w, a);
            && after.chat == w.chat
            && if p.classId != "" && key != "" && p.date != "" && Attends(a.pupils, key, p.classId) then
                 var user := if a.pupils[key].userId != "" then a.pupils[key].userId else key;
                 var period := if p.period.Some? then p.period.value else 1;
                 var sent := if p.markedAt.Some? then p.markedAt.value else a.now;
                 Marked(w.table.rows, after.table.rows, Cell(p.classId, user, p.date, period),
                        if p.status.Some? then p.status.value else "PRESENT",
                        if sent <= a.now + 60_000 then sent else a.now + 60_000)
               else after.table == w.table
  {
    FirstTable(w, a);
    if IsRollCall(a.draft) && CellOf(a.pupils, a.draft).Some? {
      MarkedBy(w.table, CellOf(a.pupils, a.draft).value, StatusOf(a.draft), TimeOf(a.draft, a.now), a.now, a.logged);
    }
    hide Deliver, SyncMark, Marked;
  }

  // ----- one student, two services ----------------------------------------------------------

  /** The sync service finds each enrolled student under either identifier, active in the class. */
  ghost predicate Registered(enrolled: seq<Student>, pupils: map<string, Pupil>, classId: string) {
    forall i :: 0 <= i < |enrolled| ==>
      var s := enrolled[i];
      && s.id != "" && s.userId != ""
      && forall key :: Names(s, key) ==> key in pupils && pupils[key] == Pupil(s.userId, classId, true)
  }

  predicate Names(s: Student, key: string) { key == s.id || key == s.userId }

  /** No identifier stands for two users. */
  ghost predicate Unambiguous(enrolled: seq<Student>) {
    forall i, j, key
      | 0 <= i < |enrolled| && 0 <= j < |enrolled| && Names(enrolled[i], key) && Names(enrolled[j], key) ::
      enrolled[i].userId == enrolled[j].userId
  }

  lemma RosterFinds(enrolled: seq<Student>, i: nat, key: string)
    requires Unambiguous(enrolled) && i < |enrolled| && Names(enrolled[i], key)
    ensures key in Roster(enrolled) && Roster(enrolled)[key] == enrolled[i].userId
  {
    RosterKeys(enrolled);
    hide Roster;
  }

  lemma {:induction false} UpsertAt(rows: map<Cell, Row>, marks: seq<Mark>, now: int)
    requires Distinct(marks)
    ensures var after := Upsert(rows, marks, now);
            && (forall i :: 0 <= i < |marks| ==>
                 marks[i].cell in after && after[marks[i].cell] == Row(marks[i].status, now))
            && (forall c :: c in after ==> c in rows || exists i :: 0 <= i < |marks| && marks[i].cell == c)
            && (forall c :: c in rows && (forall i :: 0 <= i < |marks| ==> marks[i].cell != c) ==>
                 c in after && after[c] == rows[c])
  {
    if marks != [] {
      var n := |marks| - 1;
      var rest := marks[..n];
      assert forall i :: 0 <= i < n ==> rest[i] == marks[i];
      UpsertAt(rows, rest, now);
      forall c | c in Upsert(rows, marks, now) && c !in rows
        ensures exists i :: 0 <= i < |marks| && marks[i].cell == c
      {
        if c != marks[n].cell {
          var i :| 0 <= i < n && rest[i].cell == c;
          assert marks[i].cell == c;
        }
      }
    }
  }

  /** The record is for the student. */
  predicate IsFor(enrolled: seq<Student>, r: Record, i: int) { 0 <= i < |enrolled| && Names(enrolled[i], r.studentId) }

  lemma MarkIs(enrolled: seq<Student>, classId: string, date: string, period: int, records: seq<Record>, n: int, i: int)
    requires Unambiguous(enrolled) && Enrolled(Roster(enrolled), records) && 0 <= n < |records| &&
             IsFor(enrolled, records[n], i)
    ensures MarksOf(Roster(enrolled), classId, date, period, records)[n]
         == Mark(Cell(classId, enrolled[i].userId, date, period), records[n].status)
  {
    RosterFinds(enrolled, i, records[n].studentId);
    hide Roster;
  }

  ghost predicate Named(enrolled: seq<Student>, r: Record) { exists i :: IsFor(enrolled, r, i) }

  /** Every record is for somebody, and no two are for one user. */
  ghost predicate OneEach(enrolled: seq<Student>, records: seq<Record>) {
    && (forall n :: 0 <= n < |records| ==> Named(enrolled, records[n]))
    && forall m, n, i, j | 0 <= m < n < |records| && IsFor(enrolled, records[m], i) && IsFor(enrolled, records[n], j) ::
         enrolled[i].userId != enrolled[j].userId
  }

  lemma OneEachSaved(enrolled: seq<Student>, classId: string, date: string, period: int, records: seq<Record>)
    requires Unambiguous(enrolled) && OneEach(enrolled, records)
    ensures Enrolled(Roster(enrolled), records)
    ensures Distinct(MarksOf(Roster(enrolled), classId, date, period, records))
  {
    hide Roster, Unambiguous, MarksOf;
    var roster := Roster(enrolled);
    forall n | 0 <= n < |records| ensures records[n].studentId in roster {
      var i :| IsFor(enrolled, records[n], i);
      RosterFinds(enrolled, i, records[n].studentId);
    }
    var marks := MarksOf(roster, classId, date, period, records);
    forall m, n | 0 <= m < n < |marks| ensures marks[m].cell != marks[n].cell {
      var i :| IsFor(enrolled, records[m], i);
      var j :| IsFor(enrolled, records[n], j);
      MarkIs(enrolled, classId, date, period, records, m, i);
      MarkIs(enrolled, classId, date, period, records, n, j);
    }
  }

  lemma SomeoneNamed(enrolled: seq<Student>, records: seq<Record>, n: nat)
    requires OneEach(enrolled, records) && n < |records|
    ensures Named(enrolled, records[n])
  {
  }

  /** A bulk roll call gives every student named, by either identifier, the row of class, user, date and
      period with the record's status and the time of the save, and changes no other row. */
  lemma BulkWrites(t: Table, enrolled: seq<Student>, classId: string, date: string, period: int, records: seq<Record>,
                   now: int, ok: Writes)
    requires Unambiguous(enrolled) && OneEach(enrolled, records) && ok.row
    ensures Enrolled(Roster(enrolled), records)
    ensures var after := RestMarks(t, MarksOf(Roster(enrolled), classId, date, period, records), now, ok).rows;
            && (forall n, i :: 0 <= n < |records| && IsFor(enrolled, records[n], i) ==>
                  var cell := Cell(classId, enrolled[i].userId, date, period);
                  cell in after && after[cell] == Row(records[n].status, now))
            && (forall c | c in after || c in t.rows ::
                  (exists n, i :: 0 <= n < |records| && IsFor(enrolled, records[n], i)
                                  && c == Cell(classId, enrolled[i].userId, date, period))
                  || (c in after && c in t.rows && after[c] == t.rows[c]))
  {
    hide Roster, Unambiguous, MarksOf, Upsert, OneEach;
    OneEachSaved(enrolled, classId, date, period, records);
    var marks := MarksOf(Roster(enrolled), classId, date, period, records);
    UpsertAt(t.rows, marks, now);
    forall n, i | 0 <= n < |records| && IsFor(enrolled, records[n], i)
      ensures marks[n] == Mark(Cell(classId, enrolled[i].userId, date, period), records[n].status)
    {
      MarkIs(enrolled, classId, date, period, records, n, i);
    }
    var after := Upsert(t.rows, marks, now);
    forall c | (c in after || c in t.rows) && !(c in after && c in t.rows && after[c] == t.rows[c])
      ensures exists n, i :: 0 <= n < |records| && IsFor(enrolled, records[n], i)
                             && c == Cell(classId, enrolled[i].userId, date, period)
    {
      var n :| 0 <= n < |marks| && marks[n].cell == c;
      SomeoneNamed(enrolled, records, n);
      var i :| IsFor(enrolled, records[n], i);
    }
  }

  /** `recordAttendance` for one student. */
  function SaveOne(t: Table, enrolled: seq<Student>, classId: string, date: string, period: int, r: Record,
                   now: int): Table {
    var roster := Roster(enrolled);
    if Enrolled(roster, [r]) then RestMarks(t, MarksOf(roster, classId, date, period, [r]), now, BOTH) else t
  }

  lemma OneSaved(t: Table, enrolled: seq<Student>, classId: string, date: string, period: int, r: Record, i: nat,
                 now: int)
    requires Unambiguous(enrolled) && IsFor(enrolled, r, i)
    ensures SaveOne(t, enrolled, classId, date, period, r, now).rows
         == t.rows[Cell(classId, enrolled[i].userId, date, period) := Row(r.status, now)]
  {
    RosterFinds(enrolled, i, r.studentId);
    MarkIs(enrolled, classId, date, period, [r], 0, i);
    var marks := MarksOf(Roster(enrolled), classId, date, period, [r]);
    hide Roster, Unambiguous, MarksOf;
    assert marks[..0] == [] && Upsert(t.rows, [], now) == t.rows;
  }

  lemma SameKeys(before: map<Cell, Row>, after: map<Cell, Row>, cell: Cell, row: Row)
    ensures (exists status, time :: Marked(before, after, cell, status, time)) ==>
              after[cell := row] == before[cell := row]
  {
  }

  lemma Found(enrolled: seq<Student>, pupils: map<string, Pupil>, classId: string, i: nat, key: string)
    requires Registered(enrolled, pupils, classId) && i < |enrolled| && Names(enrolled[i], key)
    ensures key != "" && Attends(pupils, key, classId) && pupils[key].userId == enrolled[i].userId != ""
  {
  }

  /** An offline and an online roll call of one enrolled student, each under either identifier, meet in one
      row, whichever comes first. */
  lemma OneRow(w: Server, a: Attempt, enrolled: seq<Student>, i: nat, online: Record, now: int)
    requires RollCallDelivered(w, a) && a.draft.payload.date != "" && a.draft.payload.classId != ""
    requires Unambiguous(enrolled) && Registered(enrolled, a.pupils, a.draft.payload.classId)
    requires i < |enrolled| && IsFor(enrolled, online, i)
    requires var p := a.draft.payload;
             Names(enrolled[i], if p.studentId.Some? then p.studentId.value else a.draft.entityId)
    ensures var p := a.draft.payload;
            var period := if p.period.Some? then p.period.value else 1;
            var cell := Cell(p.classId, enrolled[i].userId, p.date, period);
            var sent := if p.markedAt.Some? then p.markedAt.value else a.now;
            var saved := SaveOne(w.table, enrolled, p.classId, p.date, period, online, now);
            && saved.rows == w.table.rows[cell := Row(online.status, now)]
            && SaveOne(Deliver(w, a).table, enrolled, p.classId, p.date, period, online, now).rows == saved.rows
            && Marked(saved.rows, Deliver(w.(table := saved), a).table.rows, cell,
                      if p.status.Some? then p.status.value else "PRESENT",
                      if sent <= a.now + 60_000 then sent else a.now + 60_000)
  {
    hide Deliver, Roster, SaveOne, Unambiguous, Registered, Attends, Marked, FindEvent, Names, IsFor;
    var p := a.draft.payload;
    var period := if p.period.Some? then p.period.value else 1;
    var saved := SaveOne(w.table, enrolled, p.classId, p.date, period, online, now);
    OneSaved(w.table, enrolled, p.classId, p.date, period, online, i, now);
    OneSaved(Deliver(w, a).table, enrolled, p.classId, p.date, period, online, i, now);
    RollCallWrites(w, a);
    RollCallWrites(w.(table := saved), a);
    Found(enrolled, a.pupils, p.classId, i, if p.studentId.Some? then p.studentId.value else a.draft.entityId);
    SameKeys(w.table.rows, Deliver(w, a).table.rows, Cell(p.classId, enrolled[i].userId, p.date, period),
      Row(online.status, now));
  }

  // ----- messages, and events that are only carried ----------------------------------------------

  /** A message is stored with the class and the participants of its conversation as they are found, and
      becomes a row under its entity's identifier, or its own key without one, dated by the client or else
      at the moment; without conversation, sender or content, or under an identifier that is taken, it
      becomes none. */
  lemma MessageWrites(w: Server, a: Attempt)
    requires FindEvent(w.stream.events, a.draft.clientUuid).None? && a.stop == Complete
    requires a.draft.entityType == ChatMessage && a.draft.payload.Message?
    ensures var p, after := a.draft.payload, Deliver(w, a);
            var id := if a.draft.entityId != "" then a.draft.entityId else a.draft.clientUuid;
            var complete := p.conversationId != "" && p.senderId != "" && p.content != "";
            var stored := Message(p.conversationId, p.senderId, p.content, p.createdAt,
                                  if a.chatClass.Some? then a.chatClass else p.chatClass, a.participants);
            && after.stream == Stream(w.stream.events + [Event(w.stream.last + 1, a.draft.(payload := stored), a.now)],
                                      w.stream.last + 1)
            && after.table == w.table && after.applied == w.applied + {w.stream.last + 1}
            && after.chat == if complete && id !in w.chat then
                 w.chat[id := ChatRow(p.conversationId, p.senderId, p.content,
                                      if p.createdAt.Some? then p.createdAt.value else a.now)]
               else w.chat
  {
  }

  /** A message whose event was never marked applied is marked by an attempt that goes through, row or no row. */
  lemma MessageMarked(w: Server, a: Attempt)
    requires a.draft.entityType == ChatMessage && a.draft.payload.Message? && a.stop == Complete && !KeyTaken(w, a)
    requires a.draft.payload.conversationId != "" && a.draft.payload.senderId != "" && a.draft.payload.content != ""
    ensures var known := FindEvent(w.stream.events, a.draft.clientUuid);
            && known.Some? ==> known.value.sequence in Deliver(w, a).applied
  {
    hide SyncMark, CellOf;
  }

  /** Every other event is appended as it was sent, marked applied at once, and changes no row. */
  lemma OthersCarried(w: Server, a: Attempt)
    requires FindEvent(w.stream.events, a.draft.clientUuid).None?
    requires a.draft.entityType != ChatMessage && a.draft.entityType != Attendance
    ensures var after := Deliver(w, a);
            && after.stream == Stream(w.stream.events + [Event(w.stream.last + 1, a.draft, a.now)], w.stream.last + 1)
            && after.table == w.table && after.chat == w.chat && after.applied == w.applied + {w.stream.last + 1}
  {
    hide SyncMark, CellOf;
  }
}
