/**
 * The admin fee routes: resolution of a student identifier that is either a
 * primary key or a student code, and the 404 replies for unknown fee ids.
 */
module FeesRoute {

  import opened Wrappers
  import Text
  import Lists
  import opened Models
  import FeesService

  const FeeNotFound := "Fee record not found"

  function HasCode(code: string): Student -> bool {
    (s: Student) => s.studentId == code
  }

  /**
   * The identifier resolution of `get_student_fees_list`: an all-digit
   * identifier is the primary key itself, with no lookup; any other is
   * looked up as a student code.
   */
  function ResolveStudent(students: seq<Student>, identifier: string): (r: Option<int>)
    ensures Text.IsDigitString(identifier) ==> r == Some(Text.ParseNat(identifier))
    ensures !Text.IsDigitString(identifier) && r.Some? ==>
      exists i :: 0 <= i < |students| && students[i].studentId == identifier && students[i].id == r.value
    ensures !Text.IsDigitString(identifier) && r.None? ==>
      forall i :: 0 <= i < |students| ==> students[i].studentId != identifier
  {
    if Text.IsDigitString(identifier) then Some(Text.ParseNat(identifier))
    else
      match Lists.FindIndex(students, HasCode(identifier))
      case None => None
      case Some(k) => Some(students[k].id)
  }

  /** `get_student_fees_list`: an unresolved identifier gives an empty list rather than a 404. */
  function StudentFeesList(students: seq<Student>, fees: seq<Fee>, identifier: string): (r: seq<Fee>)
    ensures ResolveStudent(students, identifier).None? ==> r == []
    ensures ResolveStudent(students, identifier).Some? ==>
      forall f :: f in r <==> f in fees && f.studentId == ResolveStudent(students, identifier).value
    ensures ResolveStudent(students, identifier).Some? ==>
      FeesService.Reversed(r) == Lists.Filter(fees, FeesService.OfStudent(ResolveStudent(students, identifier).value))
  {
    match ResolveStudent(students, identifier)
    case None => []
    case Some(id) => FeesService.StudentFees(fees, id)
  }

  /**
   * A code that belongs to no student and is not all digits yields an empty
   * list even when fees exist; a numeric identifier skips the student table.
   */
  lemma ResolutionCases(students: seq<Student>, fees: seq<Fee>, n: nat)
    ensures StudentFeesList(students, fees, Text.Decimal(n)) == FeesService.StudentFees(fees, n)
    ensures StudentFeesList([], fees, "STU1001") == []
  {
    Text.ParseDecimal(n);
    assert !Text.IsDigitString("STU1001") by {
      assert !Text.IsDigit("STU1001"[0]);
    }
  }

  /** `get_fee_record`. */
  function GetFeeRecord(fees: seq<Fee>, id: int): (r: Result<Fee, HttpError>)
    ensures r.Ok? ==> r.value in fees && r.value.id == id
    ensures r.Err? <==> forall i :: 0 <= i < |fees| ==> fees[i].id != id
    ensures r.Err? ==> r.error == HttpError(404, FeeNotFound)
  {
    match FeesService.GetFee(fees, id)
    case None => Err(HttpError(404, FeeNotFound))
    case Some(f) => Ok(f)
  }

  /**
   * `add_fee`. The service always returns the new row, so the route's
   * "Student not found" branch is never taken.
   */
  method AddFee(store: FeesService.FeeStore, studentId: int, amount: real, paid: real, remark: Option<string>)
    returns (resp: Result<Fee, HttpError>)
    requires store.Valid()
    modifies store
    ensures store.Valid()
    ensures resp == Ok(FeesService.NewFee(old(store.nextId), studentId, amount, paid, remark))
    ensures store.fees == old(store.fees) + [resp.value] && store.nextId == old(store.nextId) + 1
  {
    var fee := store.CreateFee(studentId, amount, paid, remark);
    resp := Ok(fee);
  }

  /** `update_fee_record`: 404 for an unknown id. */
  method UpdateFeeRecord(store: FeesService.FeeStore, id: int, paid: Option<real>, remark: Option<string>, now: int)
    returns (resp: Result<Fee, HttpError>)
    requires store.Valid()
    modifies store
    ensures store.Valid()
    ensures FeesService.IndexOfFee(old(store.fees), id).None? ==>
      resp == Err(HttpError(404, FeeNotFound)) && store.fees == old(store.fees)
    ensures FeesService.IndexOfFee(old(store.fees), id).Some? ==>
      var k := FeesService.IndexOfFee(old(store.fees), id).value;
      resp == Ok(FeesService.Updated(old(store.fees)[k], paid, remark, now)) && store.fees == old(store.fees)[k := resp.value]
    ensures store.nextId == old(store.nextId)
  {
    var updated := store.UpdateFee(id, paid, remark, now);
    if updated.None? {
      return Err(HttpError(404, FeeNotFound));
    }
    resp := Ok(updated.value);
  }

  /** `delete_fee_record`: 404 when nothing was deleted. */
  method DeleteFeeRecord(store: FeesService.FeeStore, id: int) returns (resp: Result<(), HttpError>)
    requires store.Valid()
    modifies store
    ensures store.Valid()
    ensures resp.Err? <==> FeesService.IndexOfFee(old(store.fees), id).None?
    ensures resp.Err? ==> resp.error == HttpError(404, FeeNotFound) && store.fees == old(store.fees)
    ensures resp.Ok? ==> var k := FeesService.IndexOfFee(old(store.fees), id).value; store.fees == old(store.fees)[..k] + old(store.fees)[k + 1..]
    ensures store.nextId == old(store.nextId)
    ensures forall i :: 0 <= i < |store.fees| ==> store.fees[i].id != id
  {
    var deleted := store.DeleteFee(id);
    if !deleted {
      return Err(HttpError(404, FeeNotFound));
    }
    resp := Ok(());
  }
}
