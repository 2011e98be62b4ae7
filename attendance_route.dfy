/**
 * The admin attendance routes: the class range checks, the roster reply,
 * the mapping of the request to the bulk call and the reply it builds.
 */
module AttendanceRoute {

  import opened Wrappers
  import Lists
  import opened Models
  import AttendanceService

  const ClassRangeMessage := "Class must be between 1 and 10"

  /** A roster line: `StudentAttendanceResponse`. */
  datatype RosterLine = RosterLine(id: int, studentId: string, name: string, classNo: int)

  function ToLine(s: Student): RosterLine {
    RosterLine(s.id, s.studentId, s.name, s.classNo)
  }

  /**
   * `get_class_students_for_attendance`. The `date` path parameter is
   * accepted and not used: the roster depends on the class alone.
   */
  function ClassRoster(students: seq<Student>, classNo: int, date: string): (r: Result<seq<RosterLine>, HttpError>)
    ensures !ValidClass(classNo) <==> r == Err(HttpError(400, ClassRangeMessage))
    ensures r.Ok? ==> forall i :: 0 <= i < |r.value| ==> r.value[i].classNo == classNo
    ensures r.Ok? ==> forall i :: 0 <= i < |students| && students[i].classNo == classNo ==> ToLine(students[i]) in r.value
    ensures r.Ok? ==> r.value == Lists.Map(AttendanceService.StudentsOfClass(students, classNo), ToLine)
  {
    if classNo < 1 || classNo > 10 then Err(HttpError(400, ClassRangeMessage))
    else
      var inClass := AttendanceService.StudentsOfClass(students, classNo);
      var lines := Lists.Map(inClass, ToLine);
      assert forall i :: 0 <= i < |students| && students[i].classNo == classNo ==>
        ToLine(students[i]) == lines[Lists.IndexOf(inClass, students[i])];
      Ok(lines)
  }

  /** Two requests for one class on different days get the same roster. */
  lemma RosterIgnoresDate(students: seq<Student>, classNo: int, d1: string, d2: string)
    ensures ClassRoster(students, classNo, d1) == ClassRoster(students, classNo, d2)
  {
  }

  /** One entry of `AttendanceMarkBulkRequest.attendances`. */
  datatype MarkEntry = MarkEntry(studentId: int, status: AttendanceStatus)

  datatype MarkRequest = MarkRequest(classNo: int, date: string, attendances: seq<MarkEntry>)

  /** The reply of `POST /admin/attendance/mark`. */
  datatype MarkReply = MarkReply(message: string, date: string, classNo: int,
                                 success: nat, failed: nat, failedIds: seq<int>)

  /** The list comprehension handing the entries to the service. */
  function ToBatch(entries: seq<MarkEntry>): (b: seq<AttendanceService.BatchEntry>)
    ensures |b| == |entries|
    ensures forall i :: 0 <= i < |entries| ==> b[i] == (entries[i].studentId, entries[i].status)
  {
    seq(|entries|, i requires 0 <= i < |entries| => (entries[i].studentId, entries[i].status))
  }

  /**
   * `mark_attendance`: a class outside 1..10 is refused before anything is
   * marked; otherwise the batch is marked and the reply echoes the date and
   * class and copies the service's counts.
   */
  method MarkAttendance(table: AttendanceService.AttendanceTable, students: seq<Student>, req: MarkRequest)
    returns (resp: Result<MarkReply, HttpError>)
    requires table.Valid()
    modifies table
    ensures table.Valid()
    ensures !ValidClass(req.classNo) ==>
      resp == Err(HttpError(400, ClassRangeMessage)) && table.records == old(table.records) && table.nextId == old(table.nextId)
    ensures ValidClass(req.classNo) ==>
      var outcome := AttendanceService.Bulk(old(table.Contents()), students, req.classNo, req.date, ToBatch(req.attendances));
      table.Contents() == outcome.table
      && resp == Ok(MarkReply("Attendance marked successfully", req.date, req.classNo,
                              outcome.success, |outcome.failed|, outcome.failed))
  {
    if req.classNo < 1 || req.classNo > 10 {
      return Err(HttpError(400, ClassRangeMessage));
    }
    var batch := ToBatch(req.attendances);
    var success, failed := table.MarkAttendanceBulk(students, req.classNo, req.date, batch);
    resp := Ok(MarkReply("Attendance marked successfully", req.date, req.classNo, success, |failed|, failed));
  }

  /**
   * The reply's counts add up to the batch size, and its failed ids are the
   * unknown students' ids in request order.
   */
  lemma MarkReplyCounts(t: AttendanceService.Table, students: seq<Student>, req: MarkRequest)
    ensures var outcome := AttendanceService.Bulk(t, students, req.classNo, req.date, ToBatch(req.attendances));
      outcome.success + |outcome.failed| == |req.attendances|
      && outcome.failed == AttendanceService.Ids(Lists.Filter(ToBatch(req.attendances), AttendanceService.Unknown(students)))
  {
    AttendanceService.BulkFailed(t, students, req.classNo, req.date, ToBatch(req.attendances));
  }
}
