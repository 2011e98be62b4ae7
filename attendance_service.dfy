/**
 * The attendance service: the `attendances` table with its per-day upsert,
 * the bulk marking loop and the roster query.
 */
module AttendanceService {

  import opened Wrappers
  import Lists
  import opened Models

  /** `get_students_for_attendance`: the students of one class, in table order. */
  function StudentsOfClass(students: seq<Student>, classNo: int): (r: seq<Student>)
    ensures forall i :: 0 <= i < |r| ==> r[i] in students && r[i].classNo == classNo
    ensures forall i :: 0 <= i < |students| && students[i].classNo == classNo ==> students[i] in r
    ensures Lists.IsSubseq(r, students)
    ensures forall s :: multiset(r)[s] == if s.classNo == classNo then multiset(students)[s] else 0
  {
    Lists.FilterCounts(students, OfClass(classNo));
    Lists.Filter(students, OfClass(classNo))
  }

  function OfClass(classNo: int): Student -> bool {
    (s: Student) => s.classNo == classNo
  }

  /** A record for this student on this day. */
  predicate SameDay(a: Attendance, studentId: int, date: string) {
    a.studentId == studentId && a.date == date
  }

  function DayIs(studentId: int, date: string): Attendance -> bool {
    (a: Attendance) => SameDay(a, studentId, date)
  }

  /** The existing-record query of `mark_attendance`. */
  function FindRecord(records: seq<Attendance>, studentId: int, date: string): Option<nat> {
    Lists.FindIndex(records, DayIs(studentId, date))
  }

  /** The status recorded for a student on a day, if any. */
  function StatusOn(records: seq<Attendance>, studentId: int, date: string): Option<AttendanceStatus> {
    match FindRecord(records, studentId, date)
    case None => None
    case Some(k) => Some(records[k].status)
  }

  /** At most one record per (student, day). */
  predicate OnePerDay(records: seq<Attendance>) {
    forall i, j :: 0 <= i < j < |records| ==> !SameDay(records[i], records[j].studentId, records[j].date)
  }

  /** The table's contents and its id sequence. */
  datatype Table = Table(records: seq<Attendance>, nextId: int)

  /**
   * One `mark_attendance` call on a table: an unknown student changes
   * nothing and yields `None`; an existing record of that day gets the new
   * status; otherwise a record is appended with the next id.
   */
  function Upsert(t: Table, students: seq<Student>, studentId: int, classNo: int,
                  date: string, status: AttendanceStatus): (r: (Table, Option<Attendance>))
    ensures r.1.None? <==> FindStudent(students, studentId).None?
    ensures r.1.None? ==> r.0 == t
    ensures r.1.Some? ==> r.1.value.studentId == studentId && r.1.value.date == date && r.1.value.status == status
  {
    if FindStudent(students, studentId).None? then (t, None)
    else
      match FindRecord(t.records, studentId, date)
      case Some(k) =>
        var updated := t.records[k].(status := status);
        (Table(t.records[k := updated], t.nextId), Some(updated))
      case None =>
        var created := Attendance(t.nextId, studentId, classNo, date, status);
        (Table(t.records + [created], t.nextId + 1), Some(created))
  }

  /** After an upsert the day of that student reads the new status; no other day changes. */
  lemma UpsertStatus(t: Table, students: seq<Student>, studentId: int, classNo: int,
                     date: string, status: AttendanceStatus, s: int, d: string)
    ensures var after := Upsert(t, students, studentId, classNo, date, status).0.records;
      StatusOn(after, s, d) ==
        if FindStudent(students, studentId).Some? && s == studentId && d == date then Some(status)
        else StatusOn(t.records, s, d)
  {
    if FindStudent(students, studentId).Some? {
      var after := Upsert(t, students, studentId, classNo, date, status).0.records;
      match FindRecord(t.records, studentId, date)
      case Some(k) =>
        assert forall i :: 0 <= i < |after| ==> (DayIs(s, d)(after[i]) <==> DayIs(s, d)(t.records[i]));
        FindIndexSameHits(t.records, after, DayIs(s, d));
      case None =>
        Lists.FindIndexAppend(t.records, Attendance(t.nextId, studentId, classNo, date, status), DayIs(s, d));
        if FindRecord(t.records, s, d).Some? {
          var k := FindRecord(t.records, s, d).value;
          assert after[k] == t.records[k];
        }
    }
  }

  /** Two sequences of the same length that satisfy `p` at the same places. */
  lemma {:induction false} FindIndexSameHits<T>(a: seq<T>, b: seq<T>, p: T -> bool)
    requires |a| == |b| && forall i :: 0 <= i < |a| ==> (p(a[i]) <==> p(b[i]))
    ensures Lists.FindIndex(a, p) == Lists.FindIndex(b, p)
    decreases |a|
  {
    if a != [] && !p(a[0]) {
      FindIndexSameHits(a[1..], b[1..], p);
    }
  }

  /** Primary keys: distinct and below the next id. */
  predicate KeysBelow(records: seq<Attendance>, next: int) {
    (forall i :: 0 <= i < |records| ==> records[i].id < next)
    && forall i, j :: 0 <= i < j < |records| ==> records[i].id != records[j].id
  }

  /** The upsert keeps the primary keys distinct and below the next id. */
  lemma UpsertKeysBelow(t: Table, students: seq<Student>, studentId: int, classNo: int,
                        date: string, status: AttendanceStatus)
    requires KeysBelow(t.records, t.nextId)
    ensures var after := Upsert(t, students, studentId, classNo, date, status).0;
      KeysBelow(after.records, after.nextId)
  {
    if FindStudent(students, studentId).Some? {
      var after := Upsert(t, students, studentId, classNo, date, status).0.records;
      match FindRecord(t.records, studentId, date)
      case Some(k) =>
        assert forall i :: 0 <= i < |after| ==> after[i].id == t.records[i].id;
      case None =>
        assert forall i :: 0 <= i < |t.records| ==> after[i] == t.records[i];
    }
  }

  /** The upsert never creates a second record for a day. */
  lemma UpsertOnePerDay(t: Table, students: seq<Student>, studentId: int, classNo: int,
                        date: string, status: AttendanceStatus)
    requires OnePerDay(t.records)
    ensures OnePerDay(Upsert(t, students, studentId, classNo, date, status).0.records)
  {
    var after := Upsert(t, students, studentId, classNo, date, status).0.records;
    if FindStudent(students, studentId).Some? && FindRecord(t.records, studentId, date).None? {
      forall i, j | 0 <= i < j < |after| ensures !SameDay(after[i], after[j].studentId, after[j].date) {
        if j == |t.records| {
          assert !DayIs(studentId, date)(t.records[i]);
        } else {
          assert after[i] == t.records[i] && after[j] == t.records[j];
        }
      }
    }
  }

  /** One batch entry of `mark_attendance_bulk`: `(student_id, status)`. */
  type BatchEntry = (int, AttendanceStatus)

  /** The bulk loop's state: the table, the success count and the failed ids. */
  datatype BulkState = BulkState(table: Table, success: nat, failed: seq<int>)

  /** `mark_attendance_bulk` over a prefix of the batch. */
  function Bulk(t: Table, students: seq<Student>, classNo: int, date: string, entries: seq<BatchEntry>): (r: BulkState)
    ensures r.success + |r.failed| == |entries|
    decreases |entries|
  {
    if entries == [] then BulkState(t, 0, [])
    else
      var before := Bulk(t, students, classNo, date, entries[..|entries| - 1]);
      var e := entries[|entries| - 1];
      var (table, result) := Upsert(before.table, students, e.0, classNo, date, e.1);
      if result.Some? then BulkState(table, before.success + 1, before.failed)
      else BulkState(table, before.success, before.failed + [e.0])
  }

  function Unknown(students: seq<Student>): BatchEntry -> bool {
    (e: BatchEntry) => FindStudent(students, e.0).None?
  }

  function Ids(entries: seq<BatchEntry>): (ids: seq<int>)
    ensures |ids| == |entries| && forall i :: 0 <= i < |entries| ==> ids[i] == entries[i].0
  {
    seq(|entries|, i requires 0 <= i < |entries| => entries[i].0)
  }

  lemma BulkFailedStep(t: Table, students: seq<Student>, classNo: int, date: string, entries: seq<BatchEntry>)
    requires entries != []
    ensures var e := entries[|entries| - 1];
      Bulk(t, students, classNo, date, entries).failed ==
        Bulk(t, students, classNo, date, entries[..|entries| - 1]).failed
        + if Unknown(students)(e) then [e.0] else []
  {
  }

  lemma IdsAppend(a: seq<BatchEntry>, b: seq<BatchEntry>)
    ensures Ids(a + b) == Ids(a) + Ids(b)
  {
  }

  /** The failed ids are those of the unknown students, in batch order, repeats included. */
  lemma {:induction false} BulkFailed(t: Table, students: seq<Student>, classNo: int, date: string, entries: seq<BatchEntry>)
    ensures Bulk(t, students, classNo, date, entries).failed == Ids(Lists.Filter(entries, Unknown(students)))
    decreases |entries|
  {
    if entries != [] {
      var n := |entries| - 1;
      var e := entries[n];
      BulkFailed(t, students, classNo, date, entries[..n]);
      BulkFailedStep(t, students, classNo, date, entries);
      Lists.LastSplit(entries);
      Lists.FilterAppend(entries[..n], [e], Unknown(students));
      var tail := Lists.Filter([e], Unknown(students));
      Lists.FilterSingle(e, Unknown(students));
      IdsAppend(Lists.Filter(entries[..n], Unknown(students)), tail);
      assert Ids(tail) == if Unknown(students)(e) then [e.0] else [];
    }
  }

  function EntryFor(studentId: int): BatchEntry -> bool {
    (e: BatchEntry) => e.0 == studentId
  }

  /**
   * After the batch, a known student's day reads the status of their LAST
   * entry in the batch; every other (student, day) reads what it did before.
   */
  lemma {:induction false} BulkLastWins(t: Table, students: seq<Student>, classNo: int, date: string,
                                        entries: seq<BatchEntry>, s: int, d: string)
    ensures StatusOn(Bulk(t, students, classNo, date, entries).table.records, s, d) ==
      match Lists.FindLastIndex(entries, EntryFor(s))
      case Some(j) => if d == date && FindStudent(students, s).Some? then Some(entries[j].1) else StatusOn(t.records, s, d)
      case None => StatusOn(t.records, s, d)
    decreases |entries|
  {
    if entries != [] {
      var n := |entries| - 1;
      var e := entries[n];
      var before := Bulk(t, students, classNo, date, entries[..n]);
      BulkLastWins(t, students, classNo, date, entries[..n], s, d);
      UpsertStatus(before.table, students, e.0, classNo, date, e.1, s, d);
      assert Bulk(t, students, classNo, date, entries).table == Upsert(before.table, students, e.0, classNo, date, e.1).0;
      if e.0 != s {
        assert Lists.FindLastIndex(entries, EntryFor(s)) == Lists.FindLastIndex(entries[..n], EntryFor(s));
        match Lists.FindLastIndex(entries[..n], EntryFor(s))
        case None =>
        case Some(j) => assert entries[..n][j] == entries[j];
      }
    }
  }

  /** The batch keeps at most one record per (student, day). */
  lemma {:induction false} BulkOnePerDay(t: Table, students: seq<Student>, classNo: int, date: string, entries: seq<BatchEntry>)
    requires OnePerDay(t.records)
    ensures OnePerDay(Bulk(t, students, classNo, date, entries).table.records)
    decreases |entries|
  {
    if entries != [] {
      var n := |entries| - 1;
      var before := Bulk(t, students, classNo, date, entries[..n]);
      BulkOnePerDay(t, students, classNo, date, entries[..n]);
      UpsertOnePerDay(before.table, students, entries[n].0, classNo, date, entries[n].1);
    }
  }

  /** The `attendances` table. */
  class AttendanceTable {
    var records: seq<Attendance>
    var nextId: int

    predicate Valid()
      reads this
    {
      nextId >= 1 && OnePerDay(records) && KeysBelow(records, nextId)
    }

    constructor ()
      ensures Valid() && records == [] && nextId == 1
    {
      records := [];
      nextId := 1;
    }

    function Contents(): Table
      reads this
    {
      Table(records, nextId)
    }

    /**
     * `mark_attendance`: an existing record of that day changes only its
     * status (its class stays); otherwise the given student, class, day and
     * status are stored as a new record.
     */
    method MarkAttendance(students: seq<Student>, studentId: int, classNo: int,
                          date: string, status: AttendanceStatus)
      returns (r: Option<Attendance>)
      requires Valid()
      modifies this
      ensures Valid()
      ensures (Contents(), r) == Upsert(old(Contents()), students, studentId, classNo, date, status)
      ensures FindStudent(students, studentId).None? ==> r.None? && records == old(records)
      ensures FindStudent(students, studentId).Some? && FindRecord(old(records), studentId, date).Some? ==>
        var k := FindRecord(old(records), studentId, date).value;
        records == old(records)[k := old(records)[k].(status := status)] && nextId == old(nextId)
      ensures FindStudent(students, studentId).Some? && FindRecord(old(records), studentId, date).None? ==>
        records == old(records) + [Attendance(old(nextId), studentId, classNo, date, status)]
        && nextId == old(nextId) + 1
    {
      UpsertOnePerDay(Contents(), students, studentId, classNo, date, status);
      UpsertKeysBelow(Contents(), students, studentId, classNo, date, status);
      var student := FindStudent(students, studentId);
      if student.None? {
        return None;
      }
      var existing := FindRecord(records, studentId, date);
      if existing.Some? {
        var k := existing.value;
        records := records[k := records[k].(status := status)];
        return Some(records[k]);
      }
      var created := Attendance(nextId, studentId, classNo, date, status);
      records := records + [created];
      nextId := nextId + 1;
      r := Some(created);
    }

    /** `mark_attendance_bulk`: each entry is upserted in turn and counted. */
    method MarkAttendanceBulk(students: seq<Student>, classNo: int, date: string, entries: seq<BatchEntry>)
      returns (success: nat, failed: seq<int>)
      requires Valid()
      modifies this
      ensures Valid()
      ensures BulkState(Contents(), success, failed) == Bulk(old(Contents()), students, classNo, date, entries)
      ensures success + |failed| == |entries|
    {
      success := 0;
      failed := [];
      ghost var start := Contents();
      for i := 0 to |entries|
        invariant Valid()
        invariant BulkState(Contents(), success, failed) == Bulk(start, students, classNo, date, entries[..i])
      {
        assert entries[..i + 1][..i] == entries[..i];
        var (studentId, status) := entries[i];
        var result := MarkAttendance(students, studentId, classNo, date, status);
        if result.Some? {
          success := success + 1;
        } else {
          failed := failed + [studentId];
        }
      }
      assert entries[..|entries|] == entries;
    }
  }
}
