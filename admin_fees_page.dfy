/**
 * The admin fees screen: a student is found by a typed student code, that
 * student's fees are fetched by primary key, a deleted fee disappears from
 * the list, and editing copies a fee into the form.
 */
module AdminFeesPage {

  import opened Wrappers
  import Text
  import Lists
  import opened Models
  import FeesRoute

  /** What `handleSearch` does before the fees request. */
  datatype Search =
    | Refused(error: string)   // nothing typed: no request is made
    | NoMatch                  // the list is cleared and "Student not found" shown
    | FetchFeesOf(id: int)     // the fees of the student with this primary key are requested

  /** The typed term as it is compared: trimmed and lower-cased. */
  function SearchKey(term: string): string {
    Text.Lower(Text.JsTrim(term))
  }

  function CodeMatches(term: string): Student -> bool {
    (s: Student) => Text.Lower(s.studentId) == SearchKey(term)
  }

  /**
   * `handleSearch`: an empty term is refused; otherwise the first student
   * whose code equals the trimmed term, ignoring case, is the one searched.
   */
  function SearchFor(term: string, students: seq<Student>): (r: Search)
    ensures term == [] <==> r == Refused("Please enter a search term")
    ensures r.NoMatch? <==>
      term != [] && forall i :: 0 <= i < |students| ==> Text.Lower(students[i].studentId) != SearchKey(term)
    ensures r.FetchFeesOf? ==>
      exists k :: (0 <= k < |students| && students[k].id == r.id
                   && Text.Lower(students[k].studentId) == SearchKey(term)
                   && forall j :: 0 <= j < k ==> Text.Lower(students[j].studentId) != SearchKey(term))
  {
    if term == [] then Refused("Please enter a search term")
    else
      match Lists.FindIndex(students, CodeMatches(term))
      case None => NoMatch
      case Some(k) => FetchFeesOf(students[k].id)
  }

  /** Padding and letter case of the term do not change which student is found. */
  lemma SearchIgnoresCaseAndPadding(a: string, b: string, students: seq<Student>)
    requires a != [] && b != [] && SearchKey(a) == SearchKey(b)
    ensures SearchFor(a, students) == SearchFor(b, students)
  {
    assert CodeMatches(a) == CodeMatches(b);
  }

  /**
   * The request the screen makes for a found student carries the primary
   * key in decimal, which the fees route takes as the key itself.
   */
  lemma FetchResolvesToStudent(term: string, students: seq<Student>, allStudents: seq<Student>)
    requires SearchFor(term, students).FetchFeesOf? && SearchFor(term, students).id >= 0
    ensures var id: nat := SearchFor(term, students).id;
      FeesRoute.ResolveStudent(allStudents, Text.Decimal(id)) == Some(id)
  {
    var id: nat := SearchFor(term, students).id;
    Text.ParseDecimal(id);
  }

  /** The part of the screen state the handlers change. */
  datatype FeesState = FeesState(fees: seq<Fee>, error: string)

  /** The state after the search step (the fetched list replaces `fees` later). */
  function AfterSearch(st: FeesState, s: Search): (r: FeesState)
    ensures s.Refused? ==> r == st.(error := s.error)
    ensures s.NoMatch? ==> r.fees == [] && r.error == "Student not found"
    ensures s.FetchFeesOf? ==> r == st.(error := "")
  {
    match s
    case Refused(e) => st.(error := e)
    case NoMatch => FeesState([], "Student not found")
    case FetchFeesOf(_) => st.(error := "")
  }

  function IdIsNot(id: int): Fee -> bool {
    (f: Fee) => f.id != id
  }

  /** `fees.filter(f => f.id !== id)` after a successful delete. */
  function AfterDelete(fees: seq<Fee>, id: int): (r: seq<Fee>)
    ensures forall i :: 0 <= i < |r| ==> r[i].id != id
    ensures forall f :: f in fees && f.id != id ==> f in r
    ensures Lists.IsSubseq(r, fees)
    ensures forall f :: multiset(r)[f] == if f.id != id then multiset(fees)[f] else 0
  {
    Lists.FilterCounts(fees, IdIsNot(id));
    Lists.Filter(fees, IdIsNot(id))
  }

  /** Deleting an id not in the list keeps the list as it was. */
  lemma DeleteAbsent(fees: seq<Fee>, id: int)
    requires forall i :: 0 <= i < |fees| ==> fees[i].id != id
    ensures AfterDelete(fees, id) == fees
  {
    Lists.FilterAll(fees, IdIsNot(id));
  }

  /** A form field holding a number, or nothing yet. */
  datatype Amount = Blank | Number(value: real)

  /** `formData`: the student key is a string, as typed into a text box. */
  datatype FeeForm = FeeForm(studentId: string, amount: Amount, paid: Amount, remark: Option<string>)

  datatype EditSession = EditSession(form: FeeForm, editingId: Option<int>, showModal: bool)

  /** `handleEdit`: the fee's fields are copied into the form and its id becomes the edit target. */
  function Edit(fee: Fee): (e: EditSession)
    ensures e.editingId == Some(fee.id) && e.showModal
    ensures e.form.amount == Number(fee.amount) && e.form.paid == Number(fee.paid) && e.form.remark == fee.remark
    ensures e.form.studentId == Text.IntToString(fee.studentId)
    ensures fee.studentId >= 0 ==> Text.IsDigitString(e.form.studentId)
  {
    Text.IntToStringSign(fee.studentId);
    EditSession(FeeForm(Text.IntToString(fee.studentId), Number(fee.amount), Number(fee.paid), fee.remark),
                Some(fee.id), true)
  }

  /** `handleAddNew`: a blank form and no edit target. */
  function AddNew(): (e: EditSession)
    ensures e.editingId.None? && e.showModal
    ensures e.form.studentId == "" && e.form.amount.Blank? && e.form.paid.Blank? && e.form.remark == Some("")
  {
    EditSession(FeeForm("", Blank, Blank, Some("")), None, true)
  }

  /** `parseInt(formData.student_id, 10)` on the copied form gives back the fee's student. */
  lemma EditStudentRoundTrip(fee: Fee)
    requires fee.studentId >= 0
    ensures Text.ParseNat(Edit(fee).form.studentId) == fee.studentId
  {
    Text.ParseDecimal(fee.studentId);
    Text.IntToStringSign(fee.studentId);
  }
}
