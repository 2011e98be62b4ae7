/**
 * The student's attendance screen: the present, absent and total counts
 * and the badge colour of a record's status.
 */
module StudentAttendancePage {

  import opened Wrappers
  import Lists

  /** One record as the student attendance endpoint returns it; `status` is its text. */
  datatype RecordView = RecordView(id: int, date: string, status: string)

  function StatusIs(status: string): RecordView -> bool {
    (r: RecordView) => r.status == status
  }

  datatype Counts = Counts(present: nat, absent: nat, total: nat)

  /**
   * `presentCount`, `absentCount` and `totalClasses`. The two counts never
   * exceed the total; a holiday or any other status counts in neither.
   */
  function CountsOf(records: seq<RecordView>): (c: Counts)
    ensures c.total == |records|
    ensures c.present == |Lists.Filter(records, StatusIs("PRESENT"))|
    ensures c.absent == |Lists.Filter(records, StatusIs("ABSENT"))|
    ensures c.present + c.absent <= c.total
    ensures c.present + c.absent + Lists.Count(records, Lists.Neither(StatusIs("PRESENT"), StatusIs("ABSENT"))) == c.total
  {
    Lists.CountPartition(records, StatusIs("PRESENT"), StatusIs("ABSENT"));
    Counts(Lists.Count(records, StatusIs("PRESENT")), Lists.Count(records, StatusIs("ABSENT")), |records|)
  }

  /** No records: all counts are zero and the table shows its empty row. */
  lemma NoRecords()
    ensures CountsOf([]) == Counts(0, 0, 0)
    ensures EmptyRow([]) == Some("No attendance records found")
  {
  }

  /** Adding a holiday record raises the total and neither count. */
  lemma HolidayCountsInNeither(records: seq<RecordView>, holiday: RecordView)
    requires holiday.status == "HOLIDAY"
    ensures CountsOf(records + [holiday]).present == CountsOf(records).present
    ensures CountsOf(records + [holiday]).absent == CountsOf(records).absent
    ensures CountsOf(records + [holiday]).total == CountsOf(records).total + 1
  {
    Lists.FilterAppend(records, [holiday], StatusIs("PRESENT"));
    Lists.FilterAppend(records, [holiday], StatusIs("ABSENT"));
  }

  /** The row shown in place of an empty table, if any. */
  function EmptyRow(records: seq<RecordView>): (m: Option<string>)
    ensures m.Some? <==> |records| == 0
  {
    if |records| == 0 then Some("No attendance records found") else None
  }

  datatype Badge = Green | Red | Gray

  /** The badge colour of a status. */
  function StatusBadge(status: string): (b: Badge)
    ensures b == Green <==> status == "PRESENT"
    ensures b == Red <==> status == "ABSENT"
    ensures b == Gray <==> status != "PRESENT" && status != "ABSENT"
  {
    if status == "PRESENT" then Green else if status == "ABSENT" then Red else Gray
  }

  /** The badges agree with the counts: the green ones are the present records, the red ones the absent. */
  lemma BadgesMatchCounts(records: seq<RecordView>)
    ensures forall i :: 0 <= i < |records| && StatusBadge(records[i].status) == Green ==>
      records[i] in Lists.Filter(records, StatusIs("PRESENT"))
    ensures forall i :: 0 <= i < |records| && StatusBadge(records[i].status) == Red ==>
      records[i] in Lists.Filter(records, StatusIs("ABSENT"))
  {
  }
}
