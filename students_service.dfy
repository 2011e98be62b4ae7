/**
 * The students service: the `STU{class}{roll:03d}` identifiers (parsing,
 * printing and generation of the next free one), the integrity-error test,
 * creation with its bounded retry, field-wise update and deletion.
 */
module StudentsService {

  import opened Wrappers
  import Text
  import Lists
  import opened Models

  // ---------------------------------------------------------------------
  // Identifiers
  // ---------------------------------------------------------------------

  /** `f"STU{class_}"`. */
  function Prefix(c: int): string {
    "STU" + Text.IntToString(c)
  }

  /** `_extract_roll_number`: the value of the all-digit rest after the class prefix. */
  function ExtractRoll(studentId: string, c: int): (r: Option<nat>)
    ensures r.Some? <==>
      Text.StartsWith(studentId, Prefix(c)) && Text.IsDigitString(studentId[|Prefix(c)|..])
    ensures r.Some? ==> r.value == Text.ParseNat(studentId[|Prefix(c)|..])
  {
    var prefix := Prefix(c);
    if !Text.StartsWith(studentId, prefix) then None
    else
      var suffix := studentId[|prefix|..];
      if !Text.IsDigitString(suffix) then None else Some(Text.ParseNat(suffix))
  }

  /** `f"STU{class_}{roll:03d}"`. */
  function FormatId(c: int, roll: nat): string {
    Prefix(c) + Text.ZeroPad(Text.Decimal(roll), 3)
  }

  /** Parsing undoes printing: the roll comes back from the identifier it names. */
  lemma ExtractFormat(c: int, roll: nat)
    ensures ExtractRoll(FormatId(c, roll), c) == Some(roll)
  {
    var id := FormatId(c, roll);
    var pad := Text.ZeroPad(Text.Decimal(roll), 3);
    assert id[..|Prefix(c)|] == Prefix(c);
    assert id[|Prefix(c)|..] == pad;
    Text.ParseZeroPad(Text.Decimal(roll), 3);
    Text.ParseDecimal(roll);
  }

  /** Within a class, distinct rolls give distinct identifiers. */
  lemma FormatInjective(c: int, r1: nat, r2: nat)
    ensures FormatId(c, r1) == FormatId(c, r2) <==> r1 == r2
  {
    ExtractFormat(c, r1);
    ExtractFormat(c, r2);
  }

  /** The largest roll parsed from `ids`, or 0: the first loop of `_generate_next_student_id`. */
  function MaxRoll(ids: seq<string>, c: int): nat
    decreases |ids|
  {
    if ids == [] then 0
    else
      var m := MaxRoll(ids[..|ids| - 1], c);
      var roll := ExtractRoll(ids[|ids| - 1], c);
      if roll.Some? && roll.value > m then roll.value else m
  }

  /** `MaxRoll` bounds every parsed roll and is one of them unless it is 0. */
  lemma {:induction false} MaxRollIsMax(ids: seq<string>, c: int)
    ensures forall i :: 0 <= i < |ids| && ExtractRoll(ids[i], c).Some? ==> ExtractRoll(ids[i], c).value <= MaxRoll(ids, c)
    ensures MaxRoll(ids, c) == 0 || exists i :: 0 <= i < |ids| && ExtractRoll(ids[i], c) == Some(MaxRoll(ids, c))
    decreases |ids|
  {
    if ids != [] {
      var n := |ids| - 1;
      MaxRollIsMax(ids[..n], c);
      assert forall i :: 0 <= i < n ==> ids[..n][i] == ids[i];
      if MaxRoll(ids, c) != 0 && MaxRoll(ids, c) == MaxRoll(ids[..n], c) {
        var i :| 0 <= i < n && ExtractRoll(ids[..n][i], c) == Some(MaxRoll(ids, c));
        assert ExtractRoll(ids[i], c) == Some(MaxRoll(ids, c));
      }
    }
  }

  /** An identifier of the form `FormatId(c, r)` already present bounds `r` by `MaxRoll`. */
  lemma TakenBelowMax(ids: seq<string>, c: int, r: nat)
    requires FormatId(c, r) in ids
    ensures r <= MaxRoll(ids, c)
  {
    MaxRollIsMax(ids, c);
    ExtractFormat(c, r);
    var i :| 0 <= i < |ids| && ids[i] == FormatId(c, r);
  }

  /** The first roll `>= r` whose identifier is not in `ids`: the second loop. */
  function FreeFrom(ids: seq<string>, c: int, r: nat): (f: nat)
    ensures f >= r && FormatId(c, f) !in ids
    ensures forall q :: r <= q < f ==> FormatId(c, q) in ids
    decreases MaxRoll(ids, c) + 1 - r
  {
    if FormatId(c, r) in ids then
      TakenBelowMax(ids, c, r);
      FreeFrom(ids, c, r + 1)
    else r
  }

  function StudentIds(students: seq<Student>): (ids: seq<string>)
    ensures |ids| == |students| && forall i :: 0 <= i < |students| ==> ids[i] == students[i].studentId
  {
    seq(|students|, i requires 0 <= i < |students| => students[i].studentId)
  }

  function OfClass(c: int): Student -> bool {
    (s: Student) => s.classNo == c
  }

  /** The identifiers of the students in class `c`. */
  function ClassIds(students: seq<Student>, c: int): seq<string> {
    StudentIds(Lists.Filter(students, OfClass(c)))
  }

  /** The roll `_generate_next_student_id` settles on. */
  function NextRoll(students: seq<Student>, c: int): nat {
    FreeFrom(StudentIds(students), c, MaxRoll(ClassIds(students, c), c) + 1)
  }

  /** `_generate_next_student_id`. */
  function NextId(students: seq<Student>, c: int): string {
    FormatId(c, NextRoll(students, c))
  }

  /**
   * The generated identifier is held by no student, its roll exceeds every
   * roll parsed from the class, and every roll between the class maximum
   * and it is already taken.
   */
  lemma NextIdSpec(students: seq<Student>, c: int)
    ensures NextId(students, c) !in StudentIds(students)
    ensures var start := MaxRoll(ClassIds(students, c), c) + 1;
      var roll := ExtractRoll(NextId(students, c), c);
      roll.Some? && roll.value >= start
      && (forall q :: start <= q < roll.value ==> FormatId(c, q) in StudentIds(students))
    ensures forall i :: 0 <= i < |ClassIds(students, c)| && ExtractRoll(ClassIds(students, c)[i], c).Some? ==>
      ExtractRoll(ClassIds(students, c)[i], c).value < ExtractRoll(NextId(students, c), c).value
  {
    NextIdRoll(students, c);
    NextIdAboveClass(students, c);
  }

  /** The roll of the generated identifier, read back. */
  lemma NextIdRoll(students: seq<Student>, c: int)
    ensures ExtractRoll(NextId(students, c), c) == Some(NextRoll(students, c))
  {
    ExtractFormat(c, NextRoll(students, c));
  }

  lemma NextIdAboveClass(students: seq<Student>, c: int)
    ensures forall i :: 0 <= i < |ClassIds(students, c)| && ExtractRoll(ClassIds(students, c)[i], c).Some? ==>
      ExtractRoll(ClassIds(students, c)[i], c).value <= MaxRoll(ClassIds(students, c), c)
  {
    MaxRollIsMax(ClassIds(students, c), c);
  }

  /** With no parsable identifier in the class the numbering starts at 1. */
  lemma NextIdEmptyClass(students: seq<Student>, c: int)
    requires forall i :: 0 <= i < |students| ==> students[i].classNo != c
    ensures NextId(students, c) == FormatId(c, FreeFrom(StudentIds(students), c, 1))
  {
    Lists.FilterNone(students, OfClass(c));
  }

  // ---------------------------------------------------------------------
  // Integrity errors
  // ---------------------------------------------------------------------

  /** `_is_student_id_conflict`, on the error's message text. */
  predicate IsStudentIdConflict(message: string) {
    Text.Contains(Text.Lower(message), "student_id") && Text.Contains(Text.Lower(message), "unique")
  }

  // ---------------------------------------------------------------------
  // Creation with retry
  // ---------------------------------------------------------------------

  /** `model_dump()` of `StudentCreate`, without a `student_id`. */
  datatype NewStudent = NewStudent(
    name: string,
    classNo: Option<int>,
    dob: string,
    aadhaar: string,
    fatherName: Option<string>,
    motherName: Option<string>,
    phone: Option<string>,
    address: Option<string>)

  const MaxAttempts: nat := 5

  /** The commit outcome of attempt `k`: the integrity error's message, or `None` when it succeeds. */
  function Outcome(commitErrors: seq<Option<string>>, k: nat): Option<string> {
    if k < |commitErrors| then commitErrors[k] else None
  }

  /** How the retry loop ends. */
  datatype Retry = Saved(attempt: nat) | Raised(message: string) | GaveUp

  /** The retry loop from attempt `k` on. */
  function Retries(commitErrors: seq<Option<string>>, k: nat): Retry
    decreases MaxAttempts - k
  {
    if k >= MaxAttempts then GaveUp
    else
      match Outcome(commitErrors, k)
      case None => Saved(k)
      case Some(m) => if IsStudentIdConflict(m) then Retries(commitErrors, k + 1) else Raised(m)
  }

  /**
   * At most five attempts, and a retry only after a student-id conflict: a
   * save happens at an attempt below five after conflicts only; a re-raised
   * error is the first non-conflict; giving up means five conflicts.
   */
  lemma {:induction false} RetriesSpec(commitErrors: seq<Option<string>>, k: nat)
    requires k <= MaxAttempts
    ensures Retries(commitErrors, k).Saved? ==>
      var a := Retries(commitErrors, k).attempt;
      k <= a < MaxAttempts && Outcome(commitErrors, a).None?
      && forall j :: k <= j < a ==> Outcome(commitErrors, j).Some? && IsStudentIdConflict(Outcome(commitErrors, j).value)
    ensures Retries(commitErrors, k).Raised? ==>
      var m := Retries(commitErrors, k).message;
      !IsStudentIdConflict(m)
      && exists a :: (k <= a < MaxAttempts && Outcome(commitErrors, a) == Some(m)
                      && forall j :: k <= j < a ==> Outcome(commitErrors, j).Some? && IsStudentIdConflict(Outcome(commitErrors, j).value))
    ensures Retries(commitErrors, k).GaveUp? ==>
      forall j :: k <= j < MaxAttempts ==> Outcome(commitErrors, j).Some? && IsStudentIdConflict(Outcome(commitErrors, j).value)
    decreases MaxAttempts - k
  {
    if k < MaxAttempts && Outcome(commitErrors, k).Some? && IsStudentIdConflict(Outcome(commitErrors, k).value) {
      RetriesSpec(commitErrors, k + 1);
      if Retries(commitErrors, k).Raised? {
        var m := Retries(commitErrors, k).message;
        var a :| k + 1 <= a < MaxAttempts && Outcome(commitErrors, a) == Some(m)
          && forall j :: k + 1 <= j < a ==> Outcome(commitErrors, j).Some? && IsStudentIdConflict(Outcome(commitErrors, j).value);
        assert forall j :: k <= j < a ==> Outcome(commitErrors, j).Some? && IsStudentIdConflict(Outcome(commitErrors, j).value);
      }
    }
  }

  /** The row `create_student` inserts. */
  function NewRow(id: int, studentId: string, c: int, data: NewStudent): Student {
    Student(id, studentId, data.name, c, data.dob, data.aadhaar,
            data.fatherName, data.motherName, data.phone, data.address)
  }

  // ---------------------------------------------------------------------
  // Update
  // ---------------------------------------------------------------------

  /** A value of the update dictionary. */
  datatype Value = Str(s: string) | Int(i: int) | Null

  predicate IsTextColumn(key: string) {
    key in {"student_id", "name", "dob", "aadhaar_number", "father_name", "mother_name", "phone", "address"}
  }

  /** `value` can be stored in column `key`. */
  predicate Fits(key: string, value: Value) {
    (IsTextColumn(key) && value.Str?) || (key == "class_" && value.Int?)
  }

  function OptText(o: Option<string>): Value {
    if o.Some? then Str(o.value) else Null
  }

  /** `getattr(student, key)` for the updatable columns; any other key reads `Null`. */
  function FieldOf(s: Student, key: string): Value {
    if key == "student_id" then Str(s.studentId)
    else if key == "name" then Str(s.name)
    else if key == "class_" then Int(s.classNo)
    else if key == "dob" then Str(s.dob)
    else if key == "aadhaar_number" then Str(s.aadhaar)
    else if key == "father_name" then OptText(s.fatherName)
    else if key == "mother_name" then OptText(s.motherName)
    else if key == "phone" then OptText(s.phone)
    else if key == "address" then OptText(s.address)
    else Null
  }

  /** `setattr(student, key, value)`; a key that is no updatable column changes no column. */
  function SetField(s: Student, key: string, value: Value): (r: Student)
    ensures r.id == s.id
    ensures forall k :: FieldOf(r, k) == if k == key && Fits(k, value) then value else FieldOf(s, k)
  {
    match value
    case Str(v) =>
      if key == "student_id" then s.(studentId := v)
      else if key == "name" then s.(name := v)
      else if key == "dob" then s.(dob := v)
      else if key == "aadhaar_number" then s.(aadhaar := v)
      else if key == "father_name" then s.(fatherName := Some(v))
      else if key == "mother_name" then s.(motherName := Some(v))
      else if key == "phone" then s.(phone := Some(v))
      else if key == "address" then s.(address := Some(v))
      else s
    case Int(v) => if key == "class_" then s.(classNo := v) else s
    case Null => s
  }

  /** The update loop: every non-`None` value is assigned, in dictionary order. */
  function ApplyUpdates(s: Student, updates: seq<(string, Value)>): (r: Student)
    ensures r.id == s.id
    decreases |updates|
  {
    if updates == [] then s
    else
      var before := ApplyUpdates(s, updates[..|updates| - 1]);
      var (key, value) := updates[|updates| - 1];
      if value != Null then SetField(before, key, value) else before
  }

  /** An entry that assigns column `k`. */
  function Assigns(k: string): ((string, Value)) -> bool {
    (e: (string, Value)) => e.0 == k && e.1 != Null && Fits(k, e.1)
  }

  /**
   * After the update each column holds the last non-`None` value given for
   * it, and a column given no such value is unchanged.
   */
  lemma {:induction false} ApplyUpdatesSpec(s: Student, updates: seq<(string, Value)>, k: string)
    ensures FieldOf(ApplyUpdates(s, updates), k) ==
      match Lists.FindLastIndex(updates, Assigns(k))
      case Some(j) => updates[j].1
      case None => FieldOf(s, k)
    decreases |updates|
  {
    if updates != [] {
      var n := |updates| - 1;
      ApplyUpdatesSpec(s, updates[..n], k);
      if !Assigns(k)(updates[n]) {
        assert Lists.FindLastIndex(updates, Assigns(k)) == Lists.FindLastIndex(updates[..n], Assigns(k));
        match Lists.FindLastIndex(updates[..n], Assigns(k))
        case None =>
        case Some(j) => assert updates[..n][j] == updates[j];
      }
    }
  }

  // ---------------------------------------------------------------------
  // The table
  // ---------------------------------------------------------------------

  /** The student with this primary key. */
  function IndexOfId(students: seq<Student>, id: int): Option<nat> {
    Lists.FindIndex(students, (s: Student) => s.id == id)
  }

  /** The first loop of `_generate_next_student_id`: the largest parsed roll, 0 if none. */
  method LargestRoll(ids: seq<string>, c: int) returns (maxRoll: nat)
    ensures maxRoll == MaxRoll(ids, c)
  {
    maxRoll := 0;
    for i := 0 to |ids|
      invariant maxRoll == MaxRoll(ids[..i], c)
    {
      assert ids[..i + 1][..i] == ids[..i];
      var roll := ExtractRoll(ids[i], c);
      if roll.Some? && roll.value > maxRoll {
        maxRoll := roll.value;
      }
    }
    assert ids[..|ids|] == ids;
  }

  /** The second loop of `_generate_next_student_id`: step past every roll already taken. */
  method FirstFree(ids: seq<string>, c: int, start: nat) returns (roll: nat)
    ensures roll == FreeFrom(ids, c, start)
  {
    roll := start;
    while FormatId(c, roll) in ids
      invariant FreeFrom(ids, c, roll) == FreeFrom(ids, c, start)
      decreases MaxRoll(ids, c) + 1 - roll
    {
      TakenBelowMax(ids, c, roll);
      roll := roll + 1;
    }
  }

  /** The two loops of `_generate_next_student_id` together settle on `NextRoll`. */
  lemma SettledRoll(students: seq<Student>, c: int, maxRoll: nat, roll: nat)
    requires maxRoll == MaxRoll(ClassIds(students, c), c)
    requires roll == FreeFrom(StudentIds(students), c, maxRoll + 1)
    ensures FormatId(c, roll) == NextId(students, c)
    ensures FormatId(c, roll) !in StudentIds(students)
  {
  }

  /** Primary keys below `next` and distinct. */
  predicate KeysBelow(students: seq<Student>, next: int) {
    (forall i :: 0 <= i < |students| ==> students[i].id < next)
    && forall i, j :: 0 <= i < j < |students| ==> students[i].id != students[j].id
  }

  /** Appending a row keyed by the sequence value keeps the keys, and a fresh identifier keeps identifiers unique. */
  lemma AppendStudent(students: seq<Student>, next: int, row: Student)
    requires KeysBelow(students, next) && row.id == next
    ensures KeysBelow(students + [row], next + 1)
    ensures row.studentId !in StudentIds(students) && Lists.NoDups(StudentIds(students)) ==>
      Lists.NoDups(StudentIds(students + [row]))
  {
    assert StudentIds(students + [row]) == StudentIds(students) + [row.studentId];
  }

  /** The `students` table. */
  class StudentStore {
    var students: seq<Student>
    /** The next value of the primary-key sequence. */
    var nextId: int

    /** Primary keys are below the sequence and distinct. */
    predicate Valid()
      reads this
    {
      nextId >= 1 && KeysBelow(students, nextId)
    }

    constructor ()
      ensures Valid() && students == [] && nextId == 1
    {
      students := [];
      nextId := 1;
    }

    /** `_generate_next_student_id`, reading the table. */
    method NextStudentId(c: int) returns (candidate: string)
      ensures candidate == NextId(students, c)
      ensures candidate !in StudentIds(students)
    {
      var maxRoll := LargestRoll(ClassIds(students, c), c);
      var roll := FirstFree(StudentIds(students), c, maxRoll + 1);
      candidate := FormatId(c, roll);
      SettledRoll(students, c, maxRoll, roll);
    }

    /**
     * `create_student`: no class yields `None`; otherwise up to five
     * attempts insert the student under a freshly generated identifier, a
     * student-id conflict rolls back and retries, any other integrity error
     * rolls back and is re-raised (`Err`), and five conflicts yield `None`.
     */
    method CreateStudent(data: NewStudent, commitErrors: seq<Option<string>>)
      returns (r: Result<Option<Student>, string>)
      requires Valid()
      modifies this
      ensures Valid()
      ensures data.classNo.None? ==> r == Ok(None) && students == old(students) && nextId == old(nextId)
      ensures data.classNo.Some? ==>
        match Retries(commitErrors, 0)
        case Saved(_) =>
          var row := NewRow(old(nextId), NextId(old(students), data.classNo.value), data.classNo.value, data);
          r == Ok(Some(row)) && students == old(students) + [row] && nextId == old(nextId) + 1
        case Raised(m) => r == Err(m) && students == old(students) && nextId == old(nextId)
        case GaveUp => r == Ok(None) && students == old(students) && nextId == old(nextId)
      ensures Lists.NoDups(StudentIds(old(students))) ==> Lists.NoDups(StudentIds(students))
    {
      if data.classNo.None? {
        return Ok(None);
      }
      var c := data.classNo.value;
      var outcome, studentId := Attempts(c, commitErrors);
      match outcome
      case Saved(_) =>
        var row := NewRow(nextId, studentId, c, data);
        AppendStudent(students, nextId, row);
        students := students + [row];
        nextId := nextId + 1;
        r := Ok(Some(row));
      case Raised(m) =>
        r := Err(m);
      case GaveUp =>
        r := Ok(None);
    }

    /**
     * The retry loop of `create_student`: each attempt generates the
     * identifier and commits; a rolled-back attempt leaves the table as it
     * was, so every attempt generates the same identifier.
     */
    method Attempts(c: int, commitErrors: seq<Option<string>>) returns (outcome: Retry, studentId: string)
      ensures outcome == Retries(commitErrors, 0)
      ensures studentId == NextId(students, c)
    {
      studentId := NextStudentId(c);
      for attempt := 0 to MaxAttempts
        invariant Retries(commitErrors, attempt) == Retries(commitErrors, 0)
        invariant studentId == NextId(students, c)
      {
        studentId := NextStudentId(c);
        var committed := Outcome(commitErrors, attempt);
        if committed.None? {
          return Saved(attempt), studentId;
        }
        if !IsStudentIdConflict(committed.value) {
          return Raised(committed.value), studentId;
        }
      }
      outcome := GaveUp;
    }

    /** `update_student`: an unknown id yields `None`; otherwise the values are assigned in turn. */
    method UpdateStudent(id: int, updates: seq<(string, Value)>) returns (r: Option<Student>)
      requires Valid()
      modifies this
      ensures Valid() && nextId == old(nextId)
      ensures IndexOfId(old(students), id).None? ==> r.None? && students == old(students)
      ensures IndexOfId(old(students), id).Some? ==>
        var k := IndexOfId(old(students), id).value;
        var updated := ApplyUpdates(old(students)[k], updates);
        r == Some(updated) && students == old(students)[k := updated]
    {
      var k := IndexOfId(students, id);
      if k.None? {
        return None;
      }
      var student := students[k.value];
      for i := 0 to |updates|
        invariant student == ApplyUpdates(students[k.value], updates[..i])
      {
        assert updates[..i + 1][..i] == updates[..i];
        var (key, value) := updates[i];
        if value != Null {
          student := SetField(student, key, value);
        }
      }
      assert updates[..|updates|] == updates;
      students := students[k.value := student];
      r := Some(student);
    }

    /** `delete_student`: true exactly when the student existed; afterwards the id is gone. */
    method DeleteStudent(id: int) returns (deleted: bool)
      requires Valid()
      modifies this
      ensures Valid() && nextId == old(nextId)
      ensures deleted <==> IndexOfId(old(students), id).Some?
      ensures !deleted ==> students == old(students)
      ensures deleted ==> var k := IndexOfId(old(students), id).value; students == old(students)[..k] + old(students)[k + 1..]
      ensures forall i :: 0 <= i < |students| ==> students[i].id != id
    {
      var k := IndexOfId(students, id);
      if k.None? {
        return false;
      }
      students := students[..k.value] + students[k.value + 1..];
      deleted := true;
    }
  }
}
