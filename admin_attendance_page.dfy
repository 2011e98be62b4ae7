/**
 * The admin attendance screen: a roster is loaded for a class and date, a
 * status is picked per student into a selection keyed by the student's
 * primary key, and the selection is validated and sent as one batch.
 *
 * The selection object's keys are the decimal forms of positive integers,
 * so `Object.entries` lists them in ascending numeric order; the selection
 * is therefore modelled as an association list sorted by key.
 */
module AdminAttendancePage {

  import opened Wrappers
  import Text
  import Lists
  import ErrorMessage

  /** A roster entry as the roster endpoint returns it. */
  datatype RosterEntry = RosterEntry(id: nat, studentId: string, name: string)

  /** The selection: `(student primary key, status)`, keys strictly ascending. */
  type Selection = seq<(nat, string)>

  predicate Ascending(sel: Selection) {
    forall i, j :: 0 <= i < j < |sel| ==> sel[i].0 < sel[j].0
  }

  /** `{ ...prev, [studentId]: status }` on the ordered selection. */
  function SetStatus(sel: Selection, id: nat, status: string): (r: Selection)
    ensures |r| > 0 && (r[0].0 == id || (|sel| > 0 && r[0].0 == sel[0].0))
    ensures Ascending(sel) ==> Ascending(r)
    decreases |sel|
  {
    if sel == [] then [(id, status)]
    else if id < sel[0].0 then [(id, status)] + sel
    else if id == sel[0].0 then [(id, status)] + sel[1..]
    else [sel[0]] + SetStatus(sel[1..], id, status)
  }

  /** Exactly the entry for `id` changes; every other key keeps its status. */
  lemma {:induction false} SetStatusLookup(sel: Selection, id: nat, status: string, k: nat)
    requires Ascending(sel)
    ensures Lists.Lookup(SetStatus(sel, id, status), k) == if k == id then Some(status) else Lists.Lookup(sel, k)
    decreases |sel|
  {
    if sel != [] && id > sel[0].0 {
      SetStatusLookup(sel[1..], id, status, k);
    }
  }

  /** The keys after the change are the old keys plus `id`. */
  lemma {:induction false} SetStatusKeys(sel: Selection, id: nat, status: string)
    ensures forall k :: k in Lists.Keys(SetStatus(sel, id, status)) <==> k == id || k in Lists.Keys(sel)
    decreases |sel|
  {
    if sel == [] {
      assert Lists.Keys([(id, status)]) == [id];
    } else {
      Lists.KeysHead(sel);
      if id < sel[0].0 {
        Lists.KeysCons((id, status), sel);
      } else if id == sel[0].0 {
        Lists.KeysCons((id, status), sel[1..]);
      } else {
        SetStatusKeys(sel[1..], id, status);
        Lists.KeysCons(sel[0], SetStatus(sel[1..], id, status));
      }
    }
  }

  // ---------------------------------------------------------------------
  // Validation and the payload
  // ---------------------------------------------------------------------

  /** `/^\d{4}-\d{2}-\d{2}$/`. */
  predicate IsIsoDateShape(d: string) {
    |d| == 10 && d[4] == '-' && d[7] == '-'
    && forall i :: 0 <= i < 10 && i != 4 && i != 7 ==> Text.IsDigit(d[i])
  }

  /** One attendance entry of the batch. */
  datatype Entry = Entry(studentId: int, status: string)

  /** The batch `handleSubmit` posts. */
  datatype Payload = Payload(classNo: Option<int>, date: string, attendances: seq<Entry>)

  /** `parseInt(key, 10)` and `String(status).toUpperCase()` for one selection entry. */
  function ToEntry(e: (nat, string)): Entry {
    Entry(Text.ParseNat(Text.Decimal(e.0)), Text.Upper(e.1))
  }

  /** `Object.entries(attendance).map(...)`. */
  function Entries(sel: Selection): (es: seq<Entry>)
    ensures |es| == |sel|
  {
    seq(|sel|, i requires 0 <= i < |sel| => ToEntry(sel[i]))
  }

  /**
   * The batch has one entry per selected student, in key order: the
   * student id parses back to the key and the status is uppercased.
   */
  lemma EntriesSpec(sel: Selection)
    ensures forall i :: 0 <= i < |sel| ==>
      Entries(sel)[i].studentId == sel[i].0 && Entries(sel)[i].status == Text.Upper(sel[i].1)
    ensures Ascending(sel) ==> forall i, j :: 0 <= i < j < |sel| ==>
      Entries(sel)[i].studentId < Entries(sel)[j].studentId
  {
    forall i | 0 <= i < |sel| ensures Entries(sel)[i].studentId == sel[i].0 {
      Text.ParseDecimal(sel[i].0);
    }
  }

  /** Why `handleSubmit` refuses to send, checked in this order. */
  function SubmitCheck(sel: Selection, date: string): (r: Option<string>)
    ensures sel == [] ==> r == Some("Please mark attendance for at least one student")
    ensures sel != [] && !IsIsoDateShape(date) ==> r == Some("Date must be in YYYY-MM-DD format")
    ensures r.None? <==> sel != [] && IsIsoDateShape(date)
  {
    if |sel| == 0 then Some("Please mark attendance for at least one student")
    else if !IsIsoDateShape(date) then Some("Date must be in YYYY-MM-DD format")
    else None
  }

  // ---------------------------------------------------------------------
  // The screen
  // ---------------------------------------------------------------------

  class AttendancePage {
    var selectedClass: Option<int>
    var selectedDate: string
    var students: seq<RosterEntry>
    var error: string
    var success: string
    var attendance: Selection

    predicate Valid()
      reads this
    {
      Ascending(attendance)
    }

    constructor ()
      ensures Valid()
      ensures selectedClass == None && selectedDate == "" && students == []
      ensures error == "" && success == "" && attendance == []
    {
      selectedClass := None;
      selectedDate := "";
      students := [];
      error := "";
      success := "";
      attendance := [];
    }

    /** Both a truthy class and a non-empty date are selected. */
    predicate CanLoad()
      reads this
    {
      selectedClass.Some? && selectedClass.value != 0 && selectedDate != ""
    }

    /**
     * `handleLoadStudents`: refused without both selections; otherwise the
     * response, given as a parameter, replaces the roster and clears the
     * selection, or empties the roster and shows the error.
     */
    method LoadStudents(response: Result<seq<RosterEntry>, ErrorMessage.Detail>) returns (sent: bool)
      requires Valid()
      modifies this
      ensures Valid()
      ensures sent == old(CanLoad())
      ensures !sent ==>
        error == "Please select both class and date" && students == old(students) && attendance == old(attendance)
      ensures sent && response.Ok? ==> students == response.value && attendance == [] && error == ""
      ensures sent && response.Err? ==>
        students == [] && attendance == old(attendance) && error == ErrorMessage.Extract(response.error)
      ensures selectedClass == old(selectedClass) && selectedDate == old(selectedDate) && success == old(success)
    {
      if !CanLoad() {
        error := "Please select both class and date";
        return false;
      }
      sent := true;
      error := "";
      match response
      case Ok(roster) =>
        students := roster;
        attendance := [];
      case Err(detail) =>
        error := ErrorMessage.Extract(detail);
        students := [];
    }

    /** `handleStatusChange`: the one key is set, `''` included. */
    method StatusChange(id: nat, status: string)
      requires Valid()
      modifies this
      ensures Valid()
      ensures attendance == SetStatus(old(attendance), id, status)
      ensures forall k :: Lists.Lookup(attendance, k) == if k == id then Some(status) else Lists.Lookup(old(attendance), k)
      ensures selectedClass == old(selectedClass) && selectedDate == old(selectedDate)
      ensures students == old(students) && error == old(error) && success == old(success)
    {
      forall k ensures Lists.Lookup(SetStatus(attendance, id, status), k) ==
        if k == id then Some(status) else Lists.Lookup(attendance, k)
      {
        SetStatusLookup(attendance, id, status, k);
      }
      attendance := SetStatus(attendance, id, status);
    }

    /**
     * `handleSubmit`: the two checks run first and send nothing; a sent
     * batch either resets the whole screen with a success message or keeps
     * everything and shows the error.
     */
    method Submit(response: Result<(), ErrorMessage.Detail>) returns (sent: Option<Payload>)
      requires Valid()
      modifies this
      ensures Valid()
      ensures var c := SubmitCheck(old(attendance), old(selectedDate));
        (c.Some? ==> sent.None? && error == c.value)
        && (c.None? ==> sent == Some(Payload(old(selectedClass), old(selectedDate), Entries(old(attendance)))))
      ensures sent.None? || response.Err? ==>
        attendance == old(attendance) && students == old(students)
        && selectedClass == old(selectedClass) && selectedDate == old(selectedDate) && success == old(success)
      ensures sent.Some? && response.Err? ==> error == ErrorMessage.Extract(response.error)
      ensures sent.Some? && response.Ok? ==>
        success == "Attendance marked successfully" && error == ""
        && attendance == [] && students == [] && selectedClass == None && selectedDate == ""
    {
      var check := SubmitCheck(attendance, selectedDate);
      if check.Some? {
        error := check.value;
        return None;
      }
      error := "";
      sent := Some(Payload(selectedClass, selectedDate, Entries(attendance)));
      match response
      case Ok(_) =>
        success := "Attendance marked successfully";
        attendance := [];
        students := [];
        selectedClass := None;
        selectedDate := "";
      case Err(detail) =>
        error := ErrorMessage.Extract(detail);
    }
  }
}
