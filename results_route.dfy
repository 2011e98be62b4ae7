/**
 * The admin results routes: the validation chain of `add_result` in front
 * of the batch insertion, the class query's range check and the 404 replies
 * of the single-result routes.
 */
module ResultsRoute {

  import opened Wrappers
  import Text
  import Lists
  import opened Models
  import ResultsService

  type MarksMap = ResultsService.MarksMap

  /** The body of `POST /admin/results`: marks keyed by subject name, in dictionary order. */
  datatype ResultCreate = ResultCreate(studentId: int, studentClass: int, examType: string, marks: MarksMap)

  /** The reply of a successful `add_result`. */
  datatype Created = Created(message: string, studentId: int, examType: string, createdCount: nat)

  const ClassRangeMessage := "Class must be between 1 and 10"
  const SubjectSetMessage :=
    "Marks must include exactly: HINDI, ENGLISH, MATHS, SCIENCE, SOCIAL_STUDIES, PHYSICAL_EDUCATION, ART"
  const ResultNotFound := "Result not found"

  function UpperKey(e: (string, int)): string {
    Text.Upper(e.0)
  }

  /** `{str(subject).upper() for subject in request.marks.keys()}`. */
  function IncomingKeys(marks: MarksMap): set<string> {
    set i | 0 <= i < |marks| :: UpperKey(marks[i])
  }

  // ---------------------------------------------------------------------
  // normalized_marks
  // ---------------------------------------------------------------------

  /** Why the loop stops at this entry, if it does: unknown subject first, then the range. */
  function EntryError(e: (string, int)): Option<string> {
    var key := UpperKey(e);
    if ParseSubject(key).None? then Some("Invalid subject: " + e.0)
    else if e.1 < 0 || e.1 > 100 then Some("Marks for " + key + " must be between 0 and 100")
    else None
  }

  predicate IsBadEntry(e: (string, int)) {
    EntryError(e).Some?
  }

  /** `normalized_marks[key] = marks` over the entries in order. */
  function Collect(marks: MarksMap): (n: MarksMap)
    ensures Lists.NoDups(Lists.Keys(n))
    decreases |marks|
  {
    if marks == [] then []
    else
      var e := marks[|marks| - 1];
      Lists.PutNoDups(Collect(marks[..|marks| - 1]), UpperKey(e), e.1);
      Lists.Put(Collect(marks[..|marks| - 1]), UpperKey(e), e.1)
  }

  /** The loop's outcome: the first bad entry's 400, or the normalized dictionary. */
  function Normalize(marks: MarksMap): Result<MarksMap, HttpError> {
    match Lists.FindIndex(marks, IsBadEntry)
    case Some(j) => Err(HttpError(400, EntryError(marks[j]).value))
    case None => Ok(Collect(marks))
  }

  /** The entry with key `k` once uppercased. */
  function KeyIs(k: string): ((string, int)) -> bool {
    (e: (string, int)) => UpperKey(e) == k
  }

  /** Each normalized key holds the value of the LAST entry that uppercases to it. */
  lemma {:induction false} CollectLookup(marks: MarksMap, k: string)
    ensures Lists.Lookup(Collect(marks), k) ==
      match Lists.FindLastIndex(marks, KeyIs(k))
      case None => None
      case Some(j) => Some(marks[j].1)
    decreases |marks|
  {
    if marks != [] {
      var n := |marks| - 1;
      var e := marks[n];
      CollectLookup(marks[..n], k);
      Lists.PutLookup(Collect(marks[..n]), UpperKey(e), e.1, k);
      if UpperKey(e) != k {
        assert Lists.FindLastIndex(marks, KeyIs(k)) == Lists.FindLastIndex(marks[..n], KeyIs(k));
        match Lists.FindLastIndex(marks[..n], KeyIs(k))
        case None =>
        case Some(j) => assert marks[..n][j] == marks[j];
      }
    }
  }

  lemma IncomingKeysLast(marks: MarksMap)
    requires marks != []
    ensures IncomingKeys(marks) == IncomingKeys(marks[..|marks| - 1]) + {UpperKey(marks[|marks| - 1])}
  {
    var n := |marks| - 1;
    assert forall i :: 0 <= i < n ==> marks[..n][i] == marks[i];
  }

  /** The normalized keys are exactly the uppercased incoming keys. */
  lemma {:induction false} CollectKeys(marks: MarksMap)
    ensures Lists.KeySet(Collect(marks)) == IncomingKeys(marks)
    decreases |marks|
  {
    if marks != [] {
      var n := |marks| - 1;
      var e := marks[n];
      var init := marks[..n];
      CollectKeys(init);
      Lists.PutKeySet(Collect(init), UpperKey(e), e.1);
      IncomingKeysLast(marks);
    }
  }

  function InRange(): int -> bool {
    (x: int) => 0 <= x <= 100
  }

  /** Every normalized value is in range. */
  lemma {:induction false} CollectRange(marks: MarksMap)
    requires forall i :: 0 <= i < |marks| ==> 0 <= marks[i].1 <= 100
    ensures forall i :: 0 <= i < |Collect(marks)| ==> 0 <= Collect(marks)[i].1 <= 100
    decreases |marks|
  {
    if marks != [] {
      var n := |marks| - 1;
      CollectRange(marks[..n]);
      Lists.PutAll(Collect(marks[..n]), UpperKey(marks[n]), marks[n].1, InRange());
    }
  }

  lemma CollectStep(marks: MarksMap, i: nat)
    requires i < |marks|
    ensures Collect(marks[..i + 1]) == Lists.Put(Collect(marks[..i]), UpperKey(marks[i]), marks[i].1)
    ensures Lists.FindIndex(marks[..i], IsBadEntry).None? && !IsBadEntry(marks[i]) ==>
      Lists.FindIndex(marks[..i + 1], IsBadEntry).None?
  {
    assert marks[..i + 1][..i] == marks[..i];
    assert marks[..i + 1] == marks[..i] + [marks[i]];
    Lists.FindIndexAppend(marks[..i], marks[i], IsBadEntry);
  }

  lemma FirstBad(marks: MarksMap, i: nat)
    requires i < |marks| && Lists.FindIndex(marks[..i], IsBadEntry).None? && IsBadEntry(marks[i])
    ensures Lists.FindIndex(marks, IsBadEntry) == Some(i)
  {
    Lists.FindIndexAt(marks, i, IsBadEntry);
  }

  /**
   * The normalization loop: it stops at the first entry with an unknown
   * subject or marks outside 0..100, and otherwise copies every value under
   * its uppercased key.
   */
  method NormalizeMarks(marks: MarksMap) returns (r: Result<MarksMap, HttpError>)
    ensures r == Normalize(marks)
  {
    var normalized: MarksMap := [];
    for i := 0 to |marks|
      invariant normalized == Collect(marks[..i])
      invariant Lists.FindIndex(marks[..i], IsBadEntry).None?
    {
      CollectStep(marks, i);
      var (name, subjectMarks) := marks[i];
      var key := Text.Upper(name);
      if ParseSubject(key).None? {
        FirstBad(marks, i);
        return Err(HttpError(400, "Invalid subject: " + name));
      }
      if subjectMarks < 0 || subjectMarks > 100 {
        FirstBad(marks, i);
        return Err(HttpError(400, "Marks for " + key + " must be between 0 and 100"));
      }
      normalized := Lists.Put(normalized, key, subjectMarks);
    }
    assert marks[..|marks|] == marks;
    r := Ok(normalized);
  }

  /**
   * What a successful normalization yields: the uppercased keys, each once,
   * each holding the last value given under it, all within 0..100.
   */
  lemma NormalizeOk(marks: MarksMap)
    requires Normalize(marks).Ok?
    ensures var n := Normalize(marks).value;
      Lists.NoDups(Lists.Keys(n))
      && Lists.KeySet(n) == IncomingKeys(marks)
      && (forall i :: 0 <= i < |n| ==> 0 <= n[i].1 <= 100)
      && forall k :: Lists.Lookup(n, k) ==
           match Lists.FindLastIndex(marks, KeyIs(k))
           case None => None
           case Some(j) => Some(marks[j].1)
  {
    CollectKeys(marks);
    forall i | 0 <= i < |marks| ensures 0 <= marks[i].1 <= 100 {
      assert !IsBadEntry(marks[i]);
    }
    CollectRange(marks);
    forall k ensures Lists.Lookup(Collect(marks), k) ==
      match Lists.FindLastIndex(marks, KeyIs(k))
      case None => None
      case Some(j) => Some(marks[j].1)
    {
      CollectLookup(marks, k);
    }
  }

  /**
   * Once the subject set has been checked, the "Invalid subject" reply is
   * unreachable: the only error left is the marks range.
   */
  lemma CheckedSubjectsAreKnown(marks: MarksMap)
    requires IncomingKeys(marks) == RequiredSubjects
    ensures Normalize(marks).Err? ==>
      var j := Lists.FindIndex(marks, IsBadEntry).value;
      (marks[j].1 < 0 || marks[j].1 > 100)
      && Normalize(marks).error == HttpError(400, "Marks for " + UpperKey(marks[j]) + " must be between 0 and 100")
  {
    if Normalize(marks).Err? {
      var j := Lists.FindIndex(marks, IsBadEntry).value;
      assert UpperKey(marks[j]) in IncomingKeys(marks);
      RequiredAreSubjects(UpperKey(marks[j]));
    }
  }

  // ---------------------------------------------------------------------
  // add_result
  // ---------------------------------------------------------------------

  /**
   * The checks of `add_result` in their order: class range, exact subject
   * set, the normalization loop, the student lookup and the class comparison
   * (made on the decimal texts); on success the normalized marks and the
   * student.
   */
  function Validate(req: ResultCreate, students: seq<Student>): (r: Result<(MarksMap, Student), HttpError>)
    ensures !ValidClass(req.studentClass) ==> r == Err(HttpError(400, ClassRangeMessage))
    ensures ValidClass(req.studentClass) && IncomingKeys(req.marks) != RequiredSubjects ==>
      r == Err(HttpError(400, SubjectSetMessage))
    ensures ValidClass(req.studentClass) && IncomingKeys(req.marks) == RequiredSubjects && Normalize(req.marks).Err? ==>
      r == Err(Normalize(req.marks).error)
    ensures ValidClass(req.studentClass) && IncomingKeys(req.marks) == RequiredSubjects && Normalize(req.marks).Ok?
            && FindStudent(students, req.studentId).None? ==>
      r == Err(HttpError(404, "Student with ID " + Text.IntToString(req.studentId) + " not found"))
    ensures ValidClass(req.studentClass) && IncomingKeys(req.marks) == RequiredSubjects && Normalize(req.marks).Ok?
            && FindStudent(students, req.studentId).Some?
            && FindStudent(students, req.studentId).value.classNo == req.studentClass ==>
      r == Ok((Normalize(req.marks).value, FindStudent(students, req.studentId).value))
    ensures r.Err? ==> r.error.status == 400 || r.error.status == 404
    ensures r.Ok? ==>
      ValidClass(req.studentClass) && IncomingKeys(req.marks) == RequiredSubjects
      && Normalize(req.marks) == Ok(r.value.0)
      && FindStudent(students, req.studentId) == Some(r.value.1)
  {
    if !ValidClass(req.studentClass) then Err(HttpError(400, ClassRangeMessage))
    else if IncomingKeys(req.marks) != RequiredSubjects then Err(HttpError(400, SubjectSetMessage))
    else
      match Normalize(req.marks)
      case Err(e) => Err(e)
      case Ok(n) =>
        match FindStudent(students, req.studentId)
        case None => Err(HttpError(404, "Student with ID " + Text.IntToString(req.studentId) + " not found"))
        case Some(s) =>
          if Text.IntToString(s.classNo) != Text.IntToString(req.studentClass) then
            Err(HttpError(400, "Student class mismatch"))
          else Ok((n, s))
  }

  /** The string comparison of the classes is the integer comparison. */
  lemma ValidateClassMatches(req: ResultCreate, students: seq<Student>)
    ensures Validate(req, students).Ok? ==> Validate(req, students).value.1.classNo == req.studentClass
    ensures (ValidClass(req.studentClass) && IncomingKeys(req.marks) == RequiredSubjects
             && Normalize(req.marks).Ok? && FindStudent(students, req.studentId).Some?
             && FindStudent(students, req.studentId).value.classNo != req.studentClass)
      ==> Validate(req, students) == Err(HttpError(400, "Student class mismatch"))
  {
    match FindStudent(students, req.studentId)
    case None =>
    case Some(s) => Text.IntToStringInjective(s.classNo, req.studentClass);
  }

  /** A validated request hands exactly the seven subjects, in range, to the insertion. */
  lemma ValidateHandsOverSubjects(req: ResultCreate, students: seq<Student>)
    requires Validate(req, students).Ok?
    ensures var n := Validate(req, students).value.0;
      Lists.NoDups(Lists.Keys(n))
      && Lists.KeySet(n) == RequiredSubjects
      && (forall i :: 0 <= i < |n| ==> 0 <= n[i].1 <= 100 && ResultsService.SubjectOf(n[i]).Some?)
  {
    var n := Validate(req, students).value.0;
    NormalizeOk(req.marks);
    forall i | 0 <= i < |n| ensures ResultsService.SubjectOf(n[i]).Some? {
      assert n[i].0 in Lists.KeySet(n);
      RequiredAreSubjects(n[i].0);
      var j :| 0 <= j < |req.marks| && UpperKey(req.marks[j]) == n[i].0;
      Text.UpperIdempotent(req.marks[j].0);
    }
  }

  /** After validation the insertion cannot fail on a subject name. */
  lemma ValidatedInsertionSucceeds(req: ResultCreate, students: seq<Student>,
                                   committed: seq<ResultRow>, firstId: int)
    requires Validate(req, students).Ok?
    ensures var (n, s) := Validate(req, students).value;
      ResultsService.NewRows(committed, req.studentId, s.classNo, req.examType, n, firstId).Ok?
  {
    var (n, s) := Validate(req, students).value;
    ValidateHandsOverSubjects(req, students);
    ResultsService.NewRowsSpec(committed, req.studentId, s.classNo, req.examType, n, firstId);
    assert Lists.FindIndex(n, ResultsService.IsInvalid).None?;
  }

  /**
   * `add_result`: nothing is written unless every check passes; the
   * insertion runs with the stored class, a failure becomes a 500 (the
   * message itself in development), and the reply counts the created rows.
   */
  method AddResult(table: ResultsService.ResultTable, students: seq<Student>, req: ResultCreate,
                   isDev: bool, commitError: Option<string>)
    returns (resp: Result<Created, HttpError>)
    requires table.Valid()
    modifies table
    ensures table.Valid()
    ensures Validate(req, students).Err? ==>
      resp == Err(Validate(req, students).error)
      && table.rows == old(table.rows) && table.nextId == old(table.nextId)
    ensures Validate(req, students).Ok? ==>
      var (n, s) := Validate(req, students).value;
      var planned := ResultsService.NewRows(old(table.rows), req.studentId, s.classNo, req.examType, n, old(table.nextId));
      planned.Ok?
      && (commitError.Some? ==>
            resp == Err(HttpError(500, if isDev then commitError.value else "Failed to save results"))
            && table.rows == old(table.rows) && table.nextId == old(table.nextId))
      && (commitError.None? ==>
            resp == Ok(Created("Results saved successfully", req.studentId, req.examType, |planned.value|))
            && table.rows == old(table.rows) + planned.value
            && table.nextId == old(table.nextId) + |planned.value|)
  {
    var v := Validate(req, students);
    if v.Err? {
      return Err(v.error);
    }
    var (n, s) := v.value;
    ValidatedInsertionSucceeds(req, students, table.rows, table.nextId);
    var results := table.CreateResult(students, req.studentId, Some(s.classNo), req.examType, n, commitError);
    match results
    case Err(message) =>
      resp := Err(HttpError(500, if isDev then message else "Failed to save results"));
    case Ok(None) =>
      resp := Err(HttpError(404, "Student with ID " + Text.IntToString(req.studentId) + " not found"));
    case Ok(Some(created)) =>
      resp := Ok(Created("Results saved successfully", req.studentId, req.examType, |created|));
  }

  // ---------------------------------------------------------------------
  // The other results routes
  // ---------------------------------------------------------------------

  /** `get_class_results_list`: the range check, then the service query. */
  function ClassResultsList(rows: seq<ResultRow>, classNo: int, exam: Option<string>): (r: Result<seq<ResultRow>, HttpError>)
    ensures !ValidClass(classNo) <==> r == Err(HttpError(400, ClassRangeMessage))
    ensures r.Ok? ==> forall i :: 0 <= i < |r.value| ==> r.value[i] in rows && r.value[i].classNo == classNo
    ensures r.Ok? ==> r.value == ResultsService.ClassResults(rows, classNo, exam)
  {
    if classNo < 1 || classNo > 10 then Err(HttpError(400, ClassRangeMessage))
    else Ok(ResultsService.ClassResults(rows, classNo, exam))
  }

  /** `get_result_record`: the row with that id, or 404. */
  function GetResultRecord(rows: seq<ResultRow>, id: int): (r: Result<ResultRow, HttpError>)
    ensures r.Ok? ==> r.value in rows && r.value.id == id
    ensures r.Err? <==> forall i :: 0 <= i < |rows| ==> rows[i].id != id
    ensures r.Err? ==> r.error == HttpError(404, ResultNotFound)
  {
    match ResultsService.RowIndex(rows, id)
    case None => Err(HttpError(404, ResultNotFound))
    case Some(k) => Ok(rows[k])
  }

  /** `update_result_marks`; `marks` carries the request schema's 0..100 bound. */
  method UpdateResultMarks(table: ResultsService.ResultTable, id: int, marks: int)
    returns (resp: Result<ResultRow, HttpError>)
    requires table.Valid() && 0 <= marks <= 100
    modifies table
    ensures table.Valid()
    ensures ResultsService.RowIndex(old(table.rows), id).None? ==>
      resp == Err(HttpError(404, ResultNotFound)) && table.rows == old(table.rows)
    ensures ResultsService.RowIndex(old(table.rows), id).Some? ==>
      var k := ResultsService.RowIndex(old(table.rows), id).value;
      resp == Ok(old(table.rows)[k].(marks := marks))
      && table.rows == old(table.rows)[k := old(table.rows)[k].(marks := marks)]
    ensures table.nextId == old(table.nextId)
  {
    var updated := table.UpdateResult(id, marks);
    if updated.None? {
      return Err(HttpError(404, ResultNotFound));
    }
    resp := Ok(updated.value);
  }

  /** `delete_result_record`: 404 when nothing was deleted. */
  method DeleteResultRecord(table: ResultsService.ResultTable, id: int) returns (resp: Result<(), HttpError>)
    requires table.Valid()
    modifies table
    ensures table.Valid()
    ensures resp.Err? <==> ResultsService.RowIndex(old(table.rows), id).None?
    ensures resp.Err? ==> resp.error == HttpError(404, ResultNotFound) && table.rows == old(table.rows)
    ensures resp.Ok? ==> var k := ResultsService.RowIndex(old(table.rows), id).value; table.rows == old(table.rows)[..k] + old(table.rows)[k + 1..]
    ensures table.nextId == old(table.nextId)
    ensures forall i :: 0 <= i < |table.rows| ==> table.rows[i].id != id
  {
    var deleted := table.DeleteResult(id);
    if !deleted {
      return Err(HttpError(404, ResultNotFound));
    }
    resp := Ok(());
  }
}
