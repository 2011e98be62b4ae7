/**
 * The results service: the `results` table, batch insertion of one row per
 * subject that skips subjects already recorded, marks update, deletion and
 * the class query.
 */
module ResultsService {

  import opened Wrappers
  import Text
  import Lists
  import opened Models

  /** A request's marks: `(subject name, marks)` in dictionary order. */
  type MarksMap = seq<(string, int)>

  /** `SubjectEnum(str(name).upper())`. */
  function SubjectOf(entry: (string, int)): Option<Subject> {
    ParseSubject(Text.Upper(entry.0))
  }

  /**
   * The `ValueError` message of a failed `SubjectEnum(...)` lookup, for a key
   * that Python's `repr` puts in single quotes unchanged (no quote, backslash
   * or unprintable character). The route's subject-set check rejects every
   * unknown key first, so this message is never sent.
   */
  function InvalidSubjectMessage(key: string): string {
    "'" + key + "' is not a valid SubjectEnum"
  }

  /** Row `r` records subject `s` of exam `exam` for this student and class. */
  predicate SameSlot(r: ResultRow, studentId: int, classNo: int, s: Subject, exam: string) {
    r.studentId == studentId && r.classNo == classNo && r.subject == s && r.examType == exam
  }

  /** The existing-row query of `create_result`. */
  predicate HasRow(rows: seq<ResultRow>, studentId: int, classNo: int, s: Subject, exam: string)
    decreases |rows|
  {
    rows != [] && (SameSlot(rows[0], studentId, classNo, s, exam) || HasRow(rows[1..], studentId, classNo, s, exam))
  }

  /** An entry the loop inserts: a valid subject with no committed row yet. */
  predicate Fresh(committed: seq<ResultRow>, studentId: int, classNo: int, exam: string, e: (string, int)) {
    SubjectOf(e).Some? && !HasRow(committed, studentId, classNo, SubjectOf(e).value, exam)
  }

  /** `Fresh` as a filter condition. */
  function IsFresh(committed: seq<ResultRow>, studentId: int, classNo: int, exam: string): ((string, int)) -> bool {
    (e: (string, int)) => Fresh(committed, studentId, classNo, exam, e)
  }

  function IsInvalid(e: (string, int)): bool {
    SubjectOf(e).None?
  }

  /**
   * The loop of `create_result` over a prefix of the marks: the rows it has
   * created, numbered from `firstId`, or the first invalid subject's error.
   * Only committed rows are seen by the existing-row query (the session does
   * not autoflush), so rows created earlier in the same batch are not.
   */
  function NewRows(committed: seq<ResultRow>, studentId: int, classNo: int, exam: string,
                   marks: MarksMap, firstId: int): (r: Result<seq<ResultRow>, string>)
    ensures r.Ok? ==> |r.value| <= |marks|
    decreases |marks|
  {
    if marks == [] then Ok([])
    else
      Visit(committed, studentId, classNo, exam,
            NewRows(committed, studentId, classNo, exam, marks[..|marks| - 1], firstId), marks[|marks| - 1], firstId)
  }

  /** One iteration: parse the subject, then skip it or create its row. */
  function Visit(committed: seq<ResultRow>, studentId: int, classNo: int, exam: string,
                 sofar: Result<seq<ResultRow>, string>, entry: (string, int), firstId: int)
    : (r: Result<seq<ResultRow>, string>)
    ensures sofar.Ok? && r.Ok? ==> |r.value| <= |sofar.value| + 1
  {
    match sofar
    case Err(e) => Err(e)
    case Ok(created) =>
      match SubjectOf(entry)
      case None => Err(InvalidSubjectMessage(Text.Upper(entry.0)))
      case Some(s) =>
        if HasRow(committed, studentId, classNo, s, exam) then Ok(created)
        else Ok(created + [ResultRow(firstId + |created|, studentId, classNo, s, entry.1, exam)])
  }

  /** The entries up to `i + 1` are those up to `i` followed by a visit of entry `i`. */
  lemma NewRowsStep(committed: seq<ResultRow>, studentId: int, classNo: int, exam: string,
                    marks: MarksMap, i: nat, firstId: int)
    requires i < |marks|
    ensures NewRows(committed, studentId, classNo, exam, marks[..i + 1], firstId)
         == Visit(committed, studentId, classNo, exam,
                  NewRows(committed, studentId, classNo, exam, marks[..i], firstId), marks[i], firstId)
  {
    assert marks[..i + 1][..i] == marks[..i];
  }

  /** The rows made from fresh entries: consecutive ids from `firstId`, fields from the request. */
  function Numbered(entries: MarksMap, studentId: int, classNo: int, exam: string, firstId: int): (rows: seq<ResultRow>)
    requires forall i :: 0 <= i < |entries| ==> SubjectOf(entries[i]).Some?
    ensures |rows| == |entries|
  {
    seq(|entries|, i requires 0 <= i < |entries| =>
      ResultRow(firstId + i, studentId, classNo, SubjectOf(entries[i]).value, entries[i].1, exam))
  }

  /**
   * The outcome the batch should have, stated without the loop: the error of
   * the first invalid subject name, or else one row per entry whose subject
   * has no committed row, in input order, numbered consecutively.
   */
  function Expected(committed: seq<ResultRow>, studentId: int, classNo: int, exam: string,
                    marks: MarksMap, firstId: int): Result<seq<ResultRow>, string>
  {
    match Lists.FindIndex(marks, IsInvalid)
    case Some(j) => Err(InvalidSubjectMessage(Text.Upper(marks[j].0)))
    case None => Ok(Numbered(FreshEntries(committed, studentId, classNo, exam, marks),
                             studentId, classNo, exam, firstId))
  }

  /** The entries whose subject is valid and has no committed row, in input order. */
  function FreshEntries(committed: seq<ResultRow>, studentId: int, classNo: int, exam: string,
                        marks: MarksMap): (es: MarksMap)
    ensures forall i :: 0 <= i < |es| ==> SubjectOf(es[i]).Some?
    ensures |es| <= |marks|
    decreases |marks|
  {
    if marks == [] then []
    else
      var entry := marks[|marks| - 1];
      FreshEntries(committed, studentId, classNo, exam, marks[..|marks| - 1])
      + if Fresh(committed, studentId, classNo, exam, entry) then [entry] else []
  }

  /** `FreshEntries` is the filter of the marks by `IsFresh`. */
  lemma {:induction false} FreshEntriesFilter(committed: seq<ResultRow>, studentId: int, classNo: int, exam: string,
                                              marks: MarksMap)
    ensures FreshEntries(committed, studentId, classNo, exam, marks)
         == Lists.Filter(marks, IsFresh(committed, studentId, classNo, exam))
    decreases |marks|
  {
    if marks != [] {
      var n := |marks| - 1;
      var isFresh := IsFresh(committed, studentId, classNo, exam);
      assert marks == marks[..n] + [marks[n]];
      FreshEntriesFilter(committed, studentId, classNo, exam, marks[..n]);
      Lists.FilterAppend(marks[..n], [marks[n]], isFresh);
      assert Lists.Filter([marks[n]], isFresh) == if isFresh(marks[n]) then [marks[n]] else [];
    }
  }

  lemma NumberedAppend(es: MarksMap, e: (string, int), studentId: int, classNo: int, exam: string, firstId: int)
    requires forall i :: 0 <= i < |es| ==> SubjectOf(es[i]).Some?
    requires SubjectOf(e).Some?
    ensures Numbered(es + [e], studentId, classNo, exam, firstId) ==
      Numbered(es, studentId, classNo, exam, firstId)
      + [ResultRow(firstId + |es|, studentId, classNo, SubjectOf(e).value, e.1, exam)]
  {
    assert forall i :: 0 <= i < |es| ==> (es + [e])[i] == es[i];
  }

  /** One iteration on a valid subject: a recorded one is skipped, a new one gets the next id. */
  lemma VisitValid(committed: seq<ResultRow>, studentId: int, classNo: int, exam: string,
                   created: seq<ResultRow>, entry: (string, int), firstId: int)
    requires SubjectOf(entry).Some?
    ensures var s := SubjectOf(entry).value;
      Visit(committed, studentId, classNo, exam, Ok(created), entry, firstId) ==
        if HasRow(committed, studentId, classNo, s, exam) then Ok(created)
        else Ok(created + [ResultRow(firstId + |created|, studentId, classNo, s, entry.1, exam)])
  {
  }

  /** `Expected` of a valid prefix extended by a valid entry: skipped if recorded, else appended. */
  lemma ExpectedStepValid(committed: seq<ResultRow>, studentId: int, classNo: int, exam: string,
                          init: MarksMap, entry: (string, int), firstId: int)
    requires Lists.FindIndex(init, IsInvalid).None? && SubjectOf(entry).Some?
    ensures Expected(committed, studentId, classNo, exam, init + [entry], firstId) ==
      Visit(committed, studentId, classNo, exam, Expected(committed, studentId, classNo, exam, init, firstId), entry, firstId)
  {
    Lists.FindIndexAppend(init, entry, IsInvalid);
    ExpectedOk(committed, studentId, classNo, exam, init, firstId);
    ExpectedOk(committed, studentId, classNo, exam, init + [entry], firstId);
    FreshEntriesAppend(committed, studentId, classNo, exam, init, entry);
    VisitNumbered(committed, studentId, classNo, exam, FreshEntries(committed, studentId, classNo, exam, init), entry, firstId);
  }

  /** One iteration on the numbered fresh entries numbers the entry too when it is fresh. */
  lemma VisitNumbered(committed: seq<ResultRow>, studentId: int, classNo: int, exam: string,
                      before: MarksMap, entry: (string, int), firstId: int)
    requires forall i :: 0 <= i < |before| ==> SubjectOf(before[i]).Some?
    requires SubjectOf(entry).Some?
    ensures var after := before + if Fresh(committed, studentId, classNo, exam, entry) then [entry] else [];
      Ok(Numbered(after, studentId, classNo, exam, firstId)) ==
      Visit(committed, studentId, classNo, exam, Ok(Numbered(before, studentId, classNo, exam, firstId)), entry, firstId)
  {
    VisitValid(committed, studentId, classNo, exam, Numbered(before, studentId, classNo, exam, firstId), entry, firstId);
    if Fresh(committed, studentId, classNo, exam, entry) {
      NumberedAppend(before, entry, studentId, classNo, exam, firstId);
    } else {
      assert before + [] == before;
    }
  }

  lemma ExpectedOk(committed: seq<ResultRow>, studentId: int, classNo: int, exam: string,
                   marks: MarksMap, firstId: int)
    requires Lists.FindIndex(marks, IsInvalid).None?
    ensures Expected(committed, studentId, classNo, exam, marks, firstId)
         == Ok(Numbered(FreshEntries(committed, studentId, classNo, exam, marks), studentId, classNo, exam, firstId))
  {
  }

  lemma FreshEntriesAppend(committed: seq<ResultRow>, studentId: int, classNo: int, exam: string,
                           init: MarksMap, entry: (string, int))
    ensures FreshEntries(committed, studentId, classNo, exam, init + [entry])
         == FreshEntries(committed, studentId, classNo, exam, init)
            + if Fresh(committed, studentId, classNo, exam, entry) then [entry] else []
  {
    assert (init + [entry])[..|init|] == init;
  }

  /**
   * What `create_result` inserts: the loop computes exactly `Expected`.
   */
  lemma {:induction false} NewRowsSpec(committed: seq<ResultRow>, studentId: int, classNo: int, exam: string,
                                       marks: MarksMap, firstId: int)
    ensures NewRows(committed, studentId, classNo, exam, marks, firstId)
         == Expected(committed, studentId, classNo, exam, marks, firstId)
    decreases |marks|
  {
    if marks == [] {
      assert Numbered([], studentId, classNo, exam, firstId) == [];
    } else {
      var n := |marks| - 1;
      var init := marks[..n];
      var entry := marks[n];
      assert marks == init + [entry];
      NewRowsSpec(committed, studentId, classNo, exam, init, firstId);
      ExpectedStep(committed, studentId, classNo, exam, init, entry, firstId);
    }
  }

  /** `Expected` follows one iteration of the loop. */
  lemma ExpectedStep(committed: seq<ResultRow>, studentId: int, classNo: int, exam: string,
                     init: MarksMap, entry: (string, int), firstId: int)
    ensures Expected(committed, studentId, classNo, exam, init + [entry], firstId) ==
      Visit(committed, studentId, classNo, exam, Expected(committed, studentId, classNo, exam, init, firstId), entry, firstId)
  {
    Lists.FindIndexAppend(init, entry, IsInvalid);
    match Lists.FindIndex(init, IsInvalid)
    case Some(j) =>
      assert init[j] == (init + [entry])[j];
    case None =>
      if SubjectOf(entry).None? {
        assert Lists.FindIndex(init + [entry], IsInvalid) == Some(|init|);
      } else {
        ExpectedStepValid(committed, studentId, classNo, exam, init, entry, firstId);
      }
  }

  /** A batch never duplicates a committed row: every created subject had no row before. */
  lemma NewRowsNoDuplicates(committed: seq<ResultRow>, studentId: int, classNo: int, exam: string,
                            marks: MarksMap, firstId: int)
    requires NewRows(committed, studentId, classNo, exam, marks, firstId).Ok?
    ensures var created := NewRows(committed, studentId, classNo, exam, marks, firstId).value;
      forall i :: 0 <= i < |created| ==>
        created[i].id == firstId + i
        && SameSlot(created[i], studentId, classNo, created[i].subject, exam)
        && !HasRow(committed, studentId, classNo, created[i].subject, exam)
  {
    NewRowsSpec(committed, studentId, classNo, exam, marks, firstId);
    FreshEntriesFilter(committed, studentId, classNo, exam, marks);
    var isFresh := IsFresh(committed, studentId, classNo, exam);
    var es := Lists.Filter(marks, isFresh);
    assert forall i :: 0 <= i < |es| ==> isFresh(es[i]);
  }

  /** Every id is below `next` and no two rows share an id: the primary key. */
  predicate KeysBelow(rows: seq<ResultRow>, next: int) {
    (forall i :: 0 <= i < |rows| ==> rows[i].id < next)
    && forall i, j :: 0 <= i < j < |rows| ==> rows[i].id != rows[j].id
  }

  /** The first row with this primary key (`filter(Result.id == result_id).first()`). */
  function RowIndex(rows: seq<ResultRow>, id: int): Option<nat> {
    Lists.FindIndex(rows, (r: ResultRow) => r.id == id)
  }

  /** `get_class_results`: rows of the class, and of the exam only when `exam_type` is truthy. */
  function ClassResults(rows: seq<ResultRow>, classNo: int, exam: Option<string>): seq<ResultRow> {
    Lists.Filter(rows, InClass(classNo, exam))
  }

  /** The query's filter condition. */
  function InClass(classNo: int, exam: Option<string>): ResultRow -> bool {
    (r: ResultRow) => r.classNo == classNo && (exam.None? || exam.value == "" || r.examType == exam.value)
  }

  /**
   * Exactly the class's rows are returned; the exam filter applies only to
   * a non-empty exam name, and `None` and `""` both mean "every exam".
   */
  lemma ClassResultsSpec(rows: seq<ResultRow>, classNo: int, exam: Option<string>)
    ensures forall r :: r in ClassResults(rows, classNo, exam) ==> r in rows && r.classNo == classNo
    ensures exam.Some? && exam.value != "" ==>
      forall r :: r in ClassResults(rows, classNo, exam) ==> r.examType == exam.value
    ensures forall i :: (0 <= i < |rows| && rows[i].classNo == classNo
      && (exam.None? || exam.value == "" || rows[i].examType == exam.value)) ==> rows[i] in ClassResults(rows, classNo, exam)
    ensures ClassResults(rows, classNo, Some("")) == ClassResults(rows, classNo, None)
  {
    var res := ClassResults(rows, classNo, exam);
    forall r | r in res ensures r in rows && InClass(classNo, exam)(r) {
      var i :| 0 <= i < |res| && res[i] == r;
    }
    Lists.FilterSame(rows, InClass(classNo, Some("")), InClass(classNo, None));
  }

  /** The `results` table. */
  class ResultTable {
    var rows: seq<ResultRow>
    /** The next value of the id sequence. */
    var nextId: int

    predicate Valid()
      reads this
    {
      nextId >= 1 && KeysBelow(rows, nextId)
    }

    constructor ()
      ensures Valid() && rows == [] && nextId == 1
    {
      rows := [];
      nextId := 1;
    }

    /**
     * `create_result`. `students` is the `students` table and `commitError`
     * the outcome of the commit (`Some(message)` when it raises). An error
     * rolls back, so the table changes only when the whole batch succeeds.
     */
    method CreateResult(students: seq<Student>, studentId: int, classNo: Option<int>, exam: string,
                        marks: MarksMap, commitError: Option<string>)
      returns (r: Result<Option<seq<ResultRow>>, string>)
      requires Valid()
      modifies this
      ensures Valid()
      ensures classNo.None? && FindStudent(students, studentId).None? ==>
        r == Ok(None) && rows == old(rows) && nextId == old(nextId)
      ensures classNo.Some? || FindStudent(students, studentId).Some? ==>
        var c := if classNo.Some? then classNo.value else FindStudent(students, studentId).value.classNo;
        var planned := NewRows(old(rows), studentId, c, exam, marks, old(nextId));
        if planned.Err? then r == Err(planned.error) && rows == old(rows) && nextId == old(nextId)
        else if commitError.Some? then r == Err(commitError.value) && rows == old(rows) && nextId == old(nextId)
        else r == Ok(Some(planned.value)) && rows == old(rows) + planned.value
             && nextId == old(nextId) + |planned.value|
    {
      var resolved: int;
      if classNo.None? {
        var student := FindStudent(students, studentId);
        if student.None? {
          return Ok(None);
        }
        resolved := student.value.classNo;
      } else {
        resolved := classNo.value;
      }
      var planned := Plan(studentId, resolved, exam, marks);
      if planned.Err? {
        return Err(planned.error);
      }
      if commitError.Some? {
        return Err(commitError.value);
      }
      var created := planned.value;
      NewRowsNoDuplicates(rows, studentId, resolved, exam, marks, nextId);
      rows := rows + created;
      nextId := nextId + |created|;
      r := Ok(Some(created));
    }

    /** The loop of `create_result`, before the commit: it reads the table and changes nothing. */
    method Plan(studentId: int, classNo: int, exam: string, marks: MarksMap) returns (r: Result<seq<ResultRow>, string>)
      ensures r == NewRows(rows, studentId, classNo, exam, marks, nextId)
    {
      var created: seq<ResultRow> := [];
      for i := 0 to |marks|
        invariant NewRows(rows, studentId, classNo, exam, marks[..i], nextId) == Ok(created)
      {
        NewRowsStep(rows, studentId, classNo, exam, marks, i, nextId);
        var step := VisitEntry(studentId, classNo, exam, created, marks[i]);
        if step.Err? {
          var seen: nat := i + 1;
          NewRowsErrorStays(rows, studentId, classNo, exam, marks, seen, nextId);
          return step;
        }
        created := step.value;
      }
      assert marks[..|marks|] == marks;
      r := Ok(created);
    }

    /** One pass of the loop: parse the subject, then skip it or plan its row. */
    method VisitEntry(studentId: int, classNo: int, exam: string, created: seq<ResultRow>, entry: (string, int))
      returns (r: Result<seq<ResultRow>, string>)
      ensures r == Visit(rows, studentId, classNo, exam, Ok(created), entry, nextId)
    {
      var (name, subjectMarks) := entry;
      var subject := ParseSubject(Text.Upper(name));
      if subject.None? {
        return Err(InvalidSubjectMessage(Text.Upper(name)));
      }
      if HasRow(rows, studentId, classNo, subject.value, exam) {
        return Ok(created);
      }
      r := Ok(created + [ResultRow(nextId + |created|, studentId, classNo, subject.value, subjectMarks, exam)]);
    }

    /** `update_result`: only `marks` of the addressed row changes. */
    method UpdateResult(id: int, marks: int) returns (r: Option<ResultRow>)
      requires Valid()
      modifies this
      ensures Valid() && nextId == old(nextId)
      ensures RowIndex(old(rows), id).None? ==> r.None? && rows == old(rows)
      ensures RowIndex(old(rows), id).Some? ==>
        var k := RowIndex(old(rows), id).value;
        r == Some(old(rows)[k].(marks := marks)) && rows == old(rows)[k := old(rows)[k].(marks := marks)]
    {
      var k := RowIndex(rows, id);
      if k.None? {
        return None;
      }
      var updated := rows[k.value].(marks := marks);
      rows := rows[k.value := updated];
      r := Some(updated);
    }

    /** `delete_result`: true exactly when the row existed; afterwards no row has the id. */
    method DeleteResult(id: int) returns (deleted: bool)
      requires Valid()
      modifies this
      ensures Valid() && nextId == old(nextId)
      ensures deleted <==> RowIndex(old(rows), id).Some?
      ensures !deleted ==> rows == old(rows)
      ensures deleted ==> var k := RowIndex(old(rows), id).value; rows == old(rows)[..k] + old(rows)[k + 1..]
      ensures forall i :: 0 <= i < |rows| ==> rows[i].id != id
    {
      var k := RowIndex(rows, id);
      if k.None? {
        return false;
      }
      rows := rows[..k.value] + rows[k.value + 1..];
      deleted := true;
    }
  }

  /** Once the loop has failed, the remaining entries do not change the outcome. */
  lemma {:induction false} NewRowsErrorStays(committed: seq<ResultRow>, studentId: int, classNo: int, exam: string,
                                             marks: MarksMap, m: nat, firstId: int)
    requires m <= |marks|
    requires NewRows(committed, studentId, classNo, exam, marks[..m], firstId).Err?
    ensures NewRows(committed, studentId, classNo, exam, marks, firstId)
         == NewRows(committed, studentId, classNo, exam, marks[..m], firstId)
    decreases |marks| - m
  {
    if m < |marks| {
      assert marks[..m + 1][..m] == marks[..m];
      NewRowsErrorStays(committed, studentId, classNo, exam, marks, m + 1, firstId);
    } else {
      assert marks[..m] == marks;
    }
  }
}
