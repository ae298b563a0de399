/** Attendance rows and their conflict log, as roll calls taken offline and roll calls saved online
    both write them. */
module Attendance {
  import opened Wrappers

  /** The key of an attendance row within a tenant. */
  datatype Cell = Cell(classId: string, studentId: string, date: string, period: int)

  datatype Row = Row(status: string, markedAt: int)

  datatype Resolution = CLIENT_WINS | SERVER_WINS

  datatype LogEntry = LogEntry(cell: Cell, client: Row, server: Row, resolution: Resolution)

  /** The tables `attendance` and `attendance_conflicts_log`. */
  datatype Table = Table(rows: map<Cell, Row>, log: seq<LogEntry>)

  /** Which of the two writes of an operation the database accepts. */
  datatype Writes = Writes(log: bool, row: bool)

  const BOTH := Writes(true, true)

  const SKEW := 60_000

  /** A client's time, at most a minute ahead of the server's. */
  function Clamp(clientTime: int, now: int): int { if clientTime < now + SKEW then clientTime else now + SKEW }

  // ----- one roll call from an offline device --------------------------------------

  predicate Wins(t: Table, cell: Cell, clientTime: int, now: int) {
    cell in t.rows ==> Clamp(clientTime, now) > t.rows[cell].markedAt
  }

  predicate Disputed(t: Table, cell: Cell, status: string) {
    cell in t.rows && t.rows[cell].status != status
  }

  /** The writes of a materialised event: the later mark wins, and a change of status is logged first. */
  function SyncMark(t: Table, cell: Cell, status: string, clientTime: int, now: int, ok: Writes): Table {
    var mark := Row(status, Clamp(clientTime, now));
    var wins := Wins(t, cell, clientTime, now);
    Table(if wins && ok.row then t.rows[cell := mark] else t.rows,
          if Disputed(t, cell, status) && ok.log
          then t.log + [LogEntry(cell, mark, t.rows[cell], if wins then CLIENT_WINS else SERVER_WINS)]
          else t.log)
  }

  // ----- a roll call saved online ---------------------------------------------------

  datatype Mark = Mark(cell: Cell, status: string)

  /** The log entries of a bulk save, decided against the rows read before any of it is written. */
  function Conflicts(rows: map<Cell, Row>, marks: seq<Mark>, now: int): seq<LogEntry> {
    if marks == [] then []
    else
      var m := marks[|marks| - 1];
      var before := Conflicts(rows, marks[..|marks| - 1], now);
      if m.cell in rows && rows[m.cell].status != m.status
      then before + [LogEntry(m.cell, Row(m.status, now), rows[m.cell], CLIENT_WINS)]
      else before
  }

  function Upsert(rows: map<Cell, Row>, marks: seq<Mark>, now: int): map<Cell, Row> {
    if marks == [] then rows
    else
      var m := marks[|marks| - 1];
      Upsert(rows, marks[..|marks| - 1], now)[m.cell := Row(m.status, now)]
  }

  /** An upsert that names one row twice is refused by the database. */
  predicate Distinct(marks: seq<Mark>) {
    forall i, j :: 0 <= i < j < |marks| ==> marks[i].cell != marks[j].cell
  }

  predicate Saved(marks: seq<Mark>, ok: Writes) { ok.row && Distinct(marks) }

  function RestMarks(t: Table, marks: seq<Mark>, now: int, ok: Writes): Table {
    Table(if Saved(marks, ok) then Upsert(t.rows, marks, now) else t.rows,
          if ok.log then t.log + Conflicts(t.rows, marks, now) else t.log)
  }

  datatype Student = Student(id: string, userId: string)

  /** Either identifier of an enrolled student leads to the user. */
  function Roster(enrolled: seq<Student>): map<string, string> {
    if enrolled == [] then map[]
    else
      var s := enrolled[|enrolled| - 1];
      Roster(enrolled[..|enrolled| - 1])[s.userId := s.userId][s.id := s.userId]
  }

  datatype Record = Record(studentId: string, status: string)

  datatype Failure = NoRecords | NotEnrolled | SaveFailed

  predicate Enrolled(roster: map<string, string>, records: seq<Record>) {
    forall i :: 0 <= i < |records| ==> records[i].studentId in roster
  }

  function MarksOf(roster: map<string, string>, classId: string, date: string, period: int,
                   records: seq<Record>): (r: seq<Mark>)
    requires Enrolled(roster, records)
    ensures |r| == |records|
  {
    seq(|records|, i requires 0 <= i < |records| =>
      Mark(Cell(classId, roster[records[i].studentId], date, period), records[i].status))
  }

  /** A student is known to a roll call by either identifier, and by nothing else. */
  lemma {:induction false} RosterKeys(enrolled: seq<Student>)
    ensures forall k :: k in Roster(enrolled) <==>
              exists i :: 0 <= i < |enrolled| && k in [enrolled[i].id, enrolled[i].userId]
    ensures forall k :: k in Roster(enrolled) ==>
              exists i :: 0 <= i < |enrolled| && k in [enrolled[i].id, enrolled[i].userId] &&
                     Roster(enrolled)[k] == enrolled[i].userId
  {
    if enrolled != [] {
      var n := |enrolled| - 1;
      var rest := enrolled[..n];
      RosterKeys(rest);
      forall k | k in Roster(enrolled)
        ensures exists i :: 0 <= i < |enrolled| && k in [enrolled[i].id, enrolled[i].userId] &&
                            Roster(enrolled)[k] == enrolled[i].userId
      {
        if k in [enrolled[n].id, enrolled[n].userId] {
          assert Roster(enrolled)[k] == enrolled[n].userId;
        } else {
          assert k in Roster(rest) && Roster(enrolled)[k] == Roster(rest)[k];
          var i :| 0 <= i < |rest| && k in [rest[i].id, rest[i].userId] && Roster(rest)[k] == rest[i].userId;
          assert enrolled[i] == rest[i];
        }
      }
      forall k, i | 0 <= i < |enrolled| && k in [enrolled[i].id, enrolled[i].userId] ensures k in Roster(enrolled) {
        if i < n {
          assert rest[i] == enrolled[i];
        }
      }
    }
  }

  class AttendanceBook {
    var rows: map<Cell, Row>
    var log: seq<LogEntry>

    function Contents(): Table
      reads this
    {
      Table(rows, log)
    }

    constructor ()
      ensures Contents() == Table(map[], [])
    {
      rows, log := map[], [];
    }

    /** The attendance part of `appendSyncEvent`; false when the row write fails. */
    method ApplySync(cell: Cell, status: string, clientTime: int, now: int, ok: Writes) returns (done: bool)
      modifies this
      ensures Contents() == SyncMark(old(Contents()), cell, status, clientTime, now, ok)
      ensures done <==> ok.row || !Wins(old(Contents()), cell, clientTime, now)
    {
      var clamped := if clientTime < now + SKEW then clientTime else now + SKEW;
      done := true;
      if cell in rows {
        var existing := rows[cell];
        var clientWins := clamped > existing.markedAt;
        if existing.status != status && ok.log {
          log :=
            log + [LogEntry(cell, Row(status, clamped), existing, if clientWins then CLIENT_WINS else SERVER_WINS)];
        }
        if clientWins {
          if ok.row {
            rows := rows[cell := Row(status, clamped)];
          } else {
            done := false;
          }
        }
      } else if ok.row {
        rows := rows[cell := Row(status, clamped)];
      } else {
        done := false;
      }
    }

    /** `recordAttendance`: one roll call for a class, refused as a whole or saved as a whole. */
    method RecordAttendance(enrolled: seq<Student>, classId: string, date: string, period: int, records: seq<Record>,
                            now: int, ok: Writes)
      returns (failure: Option<Failure>)
      modifies this
      ensures var roster := Roster(enrolled);
              if records == [] then failure == Some(NoRecords) && Contents() == old(Contents())
              else if !Enrolled(roster, records) then failure == Some(NotEnrolled) && Contents() == old(Contents())
              else
                var marks := MarksOf(roster, classId, date, period, records);
                && failure == (if Saved(marks, ok) then None else Some(SaveFailed))
                && Contents() == RestMarks(old(Contents()), marks, now, ok)
    {
      if records == [] {
        return Some(NoRecords);
      }
      var userMap: map<string, string> := map[];
      for i := 0 to |enrolled|
        invariant userMap == Roster(enrolled[..i])
      {
        userMap := userMap[enrolled[i].userId := enrolled[i].userId][enrolled[i].id := enrolled[i].userId];
        assert enrolled[..i + 1][..i] == enrolled[..i];
      }
      assert enrolled[..|enrolled|] == enrolled;
      for i := 0 to |records|
        invariant forall k :: 0 <= k < i ==> records[k].studentId in userMap
      {
        if records[i].studentId !in userMap {
          return Some(NotEnrolled);
        }
      }
      var marks := MarksOf(userMap, classId, date, period, records);
      var conflictLogs: seq<LogEntry> := [];
      for i := 0 to |marks|
        invariant conflictLogs == Conflicts(rows, marks[..i], now)
        invariant Contents() == old(Contents())
      {
        var m := marks[i];
        if m.cell in rows && rows[m.cell].status != m.status {
          conflictLogs := conflictLogs + [LogEntry(m.cell, Row(m.status, now), rows[m.cell], CLIENT_WINS)];
        }
        assert marks[..i + 1][..i] == marks[..i];
      }
      assert marks[..|marks|] == marks;
      if ok.log {
        log := log + conflictLogs;
      }
      if !Saved(marks, ok) {
        return Some(SaveFailed);
      }
      rows := Upsert(rows, marks, now);
      return None;
    }
  }
}
