/**
 * The student's results screen: an optional exam-type filter, the list of
 * exam types offered as filter buttons, the colour band of a mark and the
 * empty-table message.
 */
module StudentResultsPage {

  import Lists

  /** One result as the student results endpoint returns it. */
  datatype ResultView = ResultView(id: int, subject: string, marks: int, examType: string)

  function ExamIs(exam: string): ResultView -> bool {
    (r: ResultView) => r.examType == exam
  }

  /** `filteredResults`: no filter shows everything; a filter keeps exact exam-type matches in order. */
  function Filtered(results: seq<ResultView>, exam: string): (r: seq<ResultView>)
    ensures exam == [] ==> r == results
    ensures exam != [] ==> forall x :: x in r <==> x in results && x.examType == exam
    ensures Lists.IsSubseq(r, results)
    ensures exam != [] ==> forall x :: multiset(r)[x] == if x.examType == exam then multiset(results)[x] else 0
  {
    if exam == [] then
      Lists.SubseqRefl(results);
      results
    else
      Lists.FilterCounts(results, ExamIs(exam));
      Lists.Filter(results, ExamIs(exam))
  }

  function ExamTypesOf(results: seq<ResultView>): (ts: seq<string>)
    ensures |ts| == |results| && forall i :: 0 <= i < |results| ==> ts[i] == results[i].examType
  {
    seq(|results|, i requires 0 <= i < |results| => results[i].examType)
  }

  /** `examTypes`: each exam type once, in order of first appearance. */
  function ExamTypes(results: seq<ResultView>): (ts: seq<string>)
    ensures Lists.NoDups(ts)
    ensures forall i :: 0 <= i < |results| ==> results[i].examType in ts
    ensures forall t :: t in ts ==> exists i :: 0 <= i < |results| && results[i].examType == t
  {
    var all := ExamTypesOf(results);
    var ts := Lists.Distinct(all);
    assert forall t :: t in ts ==> results[Lists.IndexOf(all, t)].examType == t;
    ts
  }

  /** The exam types appear in the order their first results do. */
  lemma ExamTypesOrder(results: seq<ResultView>)
    ensures var all := ExamTypesOf(results);
      forall i, j :: 0 <= i < j < |ExamTypes(results)| ==>
        Lists.IndexOf(all, ExamTypes(results)[i]) < Lists.IndexOf(all, ExamTypes(results)[j])
  {
    Lists.DistinctOrder(ExamTypesOf(results));
  }

  /** Choosing one of the offered exam types never shows an empty table. */
  lemma OfferedExamNonEmpty(results: seq<ResultView>, exam: string)
    requires exam in ExamTypes(results) && exam != []
    ensures |Filtered(results, exam)| > 0
  {
    var i :| 0 <= i < |results| && results[i].examType == exam;
    assert results[i] in Filtered(results, exam);
  }

  datatype Band = Green | Yellow | Red

  /** The badge colour of a mark. */
  function MarksBand(marks: int): (b: Band)
    ensures b == Green <==> marks >= 80
    ensures b == Yellow <==> 60 <= marks < 80
    ensures b == Red <==> marks < 60
  {
    if marks >= 80 then Green else if marks >= 60 then Yellow else Red
  }

  function Rank(b: Band): nat {
    match b
    case Red => 0
    case Yellow => 1
    case Green => 2
  }

  /** A higher mark never gets a worse band. */
  lemma BandMonotone(m1: int, m2: int)
    requires m1 <= m2
    ensures Rank(MarksBand(m1)) <= Rank(MarksBand(m2))
  {
  }

  /** The message in an empty table. */
  function EmptyMessage(results: seq<ResultView>): string {
    if |results| == 0 then "No results found" else "No results for selected exam type"
  }

  /** With results present, the table can only be empty under a filter that matches none of them. */
  lemma EmptyOnlyUnderFilter(results: seq<ResultView>, exam: string)
    requires |results| > 0 && |Filtered(results, exam)| == 0
    ensures exam != [] && exam !in ExamTypes(results)
    ensures EmptyMessage(results) == "No results for selected exam type"
  {
    if exam in ExamTypes(results) {
      OfferedExamNonEmpty(results, exam);
    }
  }
}
