/**
 * The admin student routes: creation with its mapping of integrity errors
 * to 409 replies, the class query's range check, the update dictionary with
 * its `class` rename, and the 404 replies.
 */
module AdminRoute {

  import opened Wrappers
  import Text
  import Lists
  import opened Models
  import StudentsService

  const StudentIdTaken := "Student ID already exists"
  const AadhaarTaken := "Aadhaar number already exists"
  const StudentNotFound := "Student not found"
  const ClassRangeMessage := "Class must be between 1 and 10"

  /**
   * The `IntegrityError` branch of `add_student`: the student-id test comes
   * first, then the Aadhaar test, and any other message is passed on as is;
   * every case is a 409.
   */
  function ClassifyIntegrity(message: string): (e: HttpError)
    ensures e.status == 409
    ensures StudentsService.IsStudentIdConflict(message) ==> e.detail == StudentIdTaken
    ensures (!StudentsService.IsStudentIdConflict(message) && Text.Contains(Text.Lower(message), "aadhaar")
             && Text.Contains(Text.Lower(message), "unique")) ==> e.detail == AadhaarTaken
    ensures (!StudentsService.IsStudentIdConflict(message)
             && !(Text.Contains(Text.Lower(message), "aadhaar") && Text.Contains(Text.Lower(message), "unique")))
            ==> e == HttpError(409, message)
  {
    var normalized := Text.Lower(message);
    if Text.Contains(normalized, "student_id") && Text.Contains(normalized, "unique") then
      HttpError(409, StudentIdTaken)
    else if Text.Contains(normalized, "aadhaar") && Text.Contains(normalized, "unique") then
      HttpError(409, AadhaarTaken)
    else HttpError(409, message)
  }

  /**
   * `add_student`: a `None` from the service is a 409 (raised inside the
   * `try`, it passes the `HTTPException` clause unchanged); an integrity
   * error re-raised by the service is classified.
   */
  method AddStudent(store: StudentsService.StudentStore, data: StudentsService.NewStudent,
                    commitErrors: seq<Option<string>>)
    returns (resp: Result<Student, HttpError>)
    requires store.Valid()
    modifies store
    ensures store.Valid()
    ensures data.classNo.None? ==>
      resp == Err(HttpError(409, StudentIdTaken)) && store.students == old(store.students) && store.nextId == old(store.nextId)
    ensures data.classNo.Some? ==>
      match StudentsService.Retries(commitErrors, 0)
      case Saved(_) =>
        var c := data.classNo.value;
        resp == Ok(StudentsService.NewRow(old(store.nextId), StudentsService.NextId(old(store.students), c), c, data))
        && store.students == old(store.students) + [resp.value] && store.nextId == old(store.nextId) + 1
      case Raised(m) =>
        resp == Err(ClassifyIntegrity(m)) && store.students == old(store.students) && store.nextId == old(store.nextId)
      case GaveUp =>
        resp == Err(HttpError(409, StudentIdTaken)) && store.students == old(store.students) && store.nextId == old(store.nextId)
  {
    var created := store.CreateStudent(data, commitErrors);
    match created
    case Err(message) =>
      resp := Err(ClassifyIntegrity(message));
    case Ok(None) =>
      resp := Err(HttpError(409, StudentIdTaken));
    case Ok(Some(student)) =>
      resp := Ok(student);
  }

  /**
   * The service re-raises only errors that are not student-id conflicts, so
   * for them the classification never answers "Student ID already exists"
   * on its first test: that reply comes only from the `None` case.
   */
  lemma ReRaisedIsNoStudentIdConflict(commitErrors: seq<Option<string>>)
    requires StudentsService.Retries(commitErrors, 0).Raised?
    ensures var m := StudentsService.Retries(commitErrors, 0).message;
      !StudentsService.IsStudentIdConflict(m)
      && (ClassifyIntegrity(m).detail == StudentIdTaken ==> m == StudentIdTaken)
  {
    StudentsService.RetriesSpec(commitErrors, 0);
  }

  /** `get_students_in_class`. */
  function StudentsInClass(students: seq<Student>, classNo: int): (r: Result<seq<Student>, HttpError>)
    ensures !ValidClass(classNo) <==> r == Err(HttpError(400, ClassRangeMessage))
    ensures r.Ok? ==> (forall i :: 0 <= i < |r.value| ==> r.value[i] in students && r.value[i].classNo == classNo)
    ensures r.Ok? ==> forall i :: 0 <= i < |students| && students[i].classNo == classNo ==> students[i] in r.value
    ensures r.Ok? ==> Lists.IsSubseq(r.value, students)
    ensures r.Ok? ==> forall s :: multiset(r.value)[s] == if s.classNo == classNo then multiset(students)[s] else 0
  {
    if classNo < 1 || classNo > 10 then Err(HttpError(400, ClassRangeMessage))
    else
      Lists.FilterCounts(students, StudentsService.OfClass(classNo));
      Ok(Lists.Filter(students, StudentsService.OfClass(classNo)))
  }

  /** `get_student_by_id`. */
  function GetStudent(students: seq<Student>, id: int): (r: Result<Student, HttpError>)
    ensures r.Ok? ==> r.value in students && r.value.id == id
    ensures r.Err? <==> forall i :: 0 <= i < |students| ==> students[i].id != id
    ensures r.Err? ==> r.error == HttpError(404, StudentNotFound)
  {
    match StudentsService.IndexOfId(students, id)
    case None => Err(HttpError(404, StudentNotFound))
    case Some(k) => Ok(students[k])
  }

  // ---------------------------------------------------------------------
  // The update dictionary
  // ---------------------------------------------------------------------

  type UpdateDict = seq<(string, StudentsService.Value)>

  /** `dict.pop(key)` for a present key: the entry is removed, the others keep their order. */
  function Remove(d: UpdateDict, key: string): (r: UpdateDict)
    ensures forall k :: k != key ==> Lists.Lookup(r, k) == Lists.Lookup(d, k)
    ensures Lists.Lookup(r, key).None?
    decreases |d|
  {
    if d == [] then []
    else if d[0].0 == key then Remove(d[1..], key)
    else [d[0]] + Remove(d[1..], key)
  }

  /** `update_dict["class_"] = update_dict.pop("class")` when `"class"` is present. */
  function RenameClass(d: UpdateDict): UpdateDict {
    match Lists.Lookup(d, "class")
    case None => d
    case Some(v) => Lists.Put(Remove(d, "class"), "class_", v)
  }

  /**
   * After the rename no `"class"` key is left, `"class_"` holds the value
   * `"class"` had (or its own if there was none), and every other key is
   * unchanged.
   */
  lemma RenameClassSpec(d: UpdateDict)
    ensures Lists.Lookup(RenameClass(d), "class").None?
    ensures Lists.Lookup(RenameClass(d), "class_") ==
      if Lists.Lookup(d, "class").Some? then Lists.Lookup(d, "class") else Lists.Lookup(d, "class_")
    ensures forall k :: k != "class" && k != "class_" ==> Lists.Lookup(RenameClass(d), k) == Lists.Lookup(d, k)
  {
    match Lists.Lookup(d, "class")
    case None =>
    case Some(v) =>
      forall k ensures Lists.Lookup(RenameClass(d), k) ==
        if k == "class_" then Some(v) else Lists.Lookup(Remove(d, "class"), k)
      {
        Lists.PutLookup(Remove(d, "class"), "class_", v, k);
      }
  }

  /** `update_student_info`: 404 for an unknown id, otherwise the renamed dictionary is applied. */
  method UpdateStudentInfo(store: StudentsService.StudentStore, id: int, setFields: UpdateDict)
    returns (resp: Result<Student, HttpError>)
    requires store.Valid()
    modifies store
    ensures store.Valid()
    ensures StudentsService.IndexOfId(old(store.students), id).None? ==>
      resp == Err(HttpError(404, StudentNotFound)) && store.students == old(store.students)
    ensures StudentsService.IndexOfId(old(store.students), id).Some? ==>
      var k := StudentsService.IndexOfId(old(store.students), id).value;
      var updated := StudentsService.ApplyUpdates(old(store.students)[k], RenameClass(setFields));
      resp == Ok(updated) && store.students == old(store.students)[k := updated]
    ensures store.nextId == old(store.nextId)
  {
    var updated := store.UpdateStudent(id, RenameClass(setFields));
    if updated.None? {
      return Err(HttpError(404, StudentNotFound));
    }
    resp := Ok(updated.value);
  }

  /** `delete_student_record`: 404 when nothing was deleted. */
  method DeleteStudentRecord(store: StudentsService.StudentStore, id: int) returns (resp: Result<(), HttpError>)
    requires store.Valid()
    modifies store
    ensures store.Valid()
    ensures resp.Err? <==> StudentsService.IndexOfId(old(store.students), id).None?
    ensures resp.Err? ==> resp.error == HttpError(404, StudentNotFound) && store.students == old(store.students)
    ensures resp.Ok? ==> var k := StudentsService.IndexOfId(old(store.students), id).value; store.students == old(store.students)[..k] + old(store.students)[k + 1..]
    ensures store.nextId == old(store.nextId)
    ensures forall i :: 0 <= i < |store.students| ==> store.students[i].id != id
  {
    var deleted := store.DeleteStudent(id);
    if !deleted {
      return Err(HttpError(404, StudentNotFound));
    }
    resp := Ok(());
  }
}
