/**
 * The admin result-sheet screen: per-subject result records are folded into
 * one grade-sheet row per student and exam, rows are filtered by exam, and
 * an edited row is turned back into the seven-subject marks payload. The
 * screen itself is a small state machine over the class/student selectors,
 * the form and the edit target.
 */
module AdminResultsPage {

  import opened Wrappers
  import Text
  import Lists
  import Models
  import ErrorMessage

  // ---------------------------------------------------------------------
  // Subjects and row fields
  // ---------------------------------------------------------------------

  /** The seven mark fields of a grade-sheet row, in `MARK_SUBJECTS` order. */
  datatype Field = Hindi | English | Maths | Science | SocialStudies | PhysicalEducation | Art

  const MarkSubjects: seq<Field> := [Hindi, English, Maths, Science, SocialStudies, PhysicalEducation, Art]

  /** The row property name of a field (`MARK_SUBJECTS`). */
  function FieldName(f: Field): string {
    match f
    case Hindi => "hindi"
    case English => "english"
    case Maths => "maths"
    case Science => "science"
    case SocialStudies => "social_studies"
    case PhysicalEducation => "physical_education"
    case Art => "art"
  }

  /** The enumeration name that `SUBJECT_KEY_MAP` sends to a field, also the payload key. */
  function EnumName(f: Field): string {
    match f
    case Hindi => "HINDI"
    case English => "ENGLISH"
    case Maths => "MATHS"
    case Science => "SCIENCE"
    case SocialStudies => "SOCIAL_STUDIES"
    case PhysicalEducation => "PHYSICAL_EDUCATION"
    case Art => "ART"
  }

  /** `SUBJECT_KEY_MAP[subject]`: the field a subject name fills, if any. */
  function SubjectField(subject: string): (r: Option<Field>)
    ensures r.Some? ==> EnumName(r.value) == subject
  {
    if subject == "HINDI" then Some(Hindi)
    else if subject == "ENGLISH" then Some(English)
    else if subject == "MATHS" then Some(Maths)
    else if subject == "SCIENCE" then Some(Science)
    else if subject == "SOCIAL_STUDIES" then Some(SocialStudies)
    else if subject == "PHYSICAL_EDUCATION" then Some(PhysicalEducation)
    else if subject == "ART" then Some(Art)
    else None
  }

  /** `SUBJECT_KEY_MAP` sends every enumeration name back to its own field. */
  lemma SubjectFieldOfEnumName(f: Field)
    ensures SubjectField(EnumName(f)) == Some(f)
  {
  }

  /** `MARK_SUBJECTS` lists every field once. */
  lemma MarkSubjectsComplete(f: Field)
    ensures f in MarkSubjects
    ensures |MarkSubjects| == 7 && Lists.NoDups(MarkSubjects)
  {
  }

  /** The seven enumeration names are exactly the backend's required subject set. */
  lemma EnumNamesRequired()
    ensures (set f | f in MarkSubjects :: EnumName(f)) == Models.RequiredSubjects
  {
    var names := set f | f in MarkSubjects :: EnumName(f);
    assert EnumName(Hindi) in names && EnumName(English) in names && EnumName(Maths) in names;
    assert EnumName(Science) in names && EnumName(SocialStudies) in names;
    assert EnumName(PhysicalEducation) in names && EnumName(Art) in names;
  }

  /** The seven marks of a row. */
  datatype Marks = Marks(
    hindi: int, english: int, maths: int, science: int,
    socialStudies: int, physicalEducation: int, art: int)

  const ZeroMarks: Marks := Marks(0, 0, 0, 0, 0, 0, 0)

  function Get(m: Marks, f: Field): int {
    match f
    case Hindi => m.hindi
    case English => m.english
    case Maths => m.maths
    case Science => m.science
    case SocialStudies => m.socialStudies
    case PhysicalEducation => m.physicalEducation
    case Art => m.art
  }

  /** `row[field] = value`. */
  function Set(m: Marks, f: Field, v: int): (r: Marks)
    ensures Get(r, f) == v
    ensures forall g :: g != f ==> Get(r, g) == Get(m, g)
  {
    match f
    case Hindi => m.(hindi := v)
    case English => m.(english := v)
    case Maths => m.(maths := v)
    case Science => m.(science := v)
    case SocialStudies => m.(socialStudies := v)
    case PhysicalEducation => m.(physicalEducation := v)
    case Art => m.(art := v)
  }

  /** Marks that agree on every field are equal. */
  lemma MarksExt(m: Marks, n: Marks)
    requires forall f :: Get(m, f) == Get(n, f)
    ensures m == n
  {
    assert Get(m, Hindi) == Get(n, Hindi) && Get(m, English) == Get(n, English);
    assert Get(m, Maths) == Get(n, Maths) && Get(m, Science) == Get(n, Science);
    assert Get(m, SocialStudies) == Get(n, SocialStudies);
    assert Get(m, PhysicalEducation) == Get(n, PhysicalEducation) && Get(m, Art) == Get(n, Art);
  }

  // ---------------------------------------------------------------------
  // Grouping records into rows
  // ---------------------------------------------------------------------

  /** A per-subject result as the results endpoints return it. */
  datatype Record = Record(id: int, studentId: int, subject: string, marks: int, examType: string)

  /** A grade-sheet row: one student in one exam, seven marks. */
  datatype Row = Row(id: int, studentId: int, examType: string, marks: Marks)

  /** `${record.student_id}-${record.exam_type}`. */
  function GroupKey(r: Record): string {
    Text.IntToString(r.studentId) + "-" + r.examType
  }

  /** The printed student id contains no `-` after its sign. */
  lemma DigitsHaveNoDash(n: nat)
    ensures '-' !in Text.Decimal(n)
  {
    var d := Text.Decimal(n);
    assert forall i :: 0 <= i < |d| ==> d[i] != '-' by {
      assert Text.AllDigits(d);
    }
  }

  /** Two records share a group key exactly when they share student and exam. */
  lemma GroupKeyInjective(a: Record, b: Record)
    ensures GroupKey(a) == GroupKey(b) <==> a.studentId == b.studentId && a.examType == b.examType
  {
    Text.IntToStringSign(a.studentId);
    Text.IntToStringSign(b.studentId);
    Text.IntToStringInjective(a.studentId, b.studentId);
    if GroupKey(a) == GroupKey(b) {
      var sa := Text.IntToString(a.studentId);
      var sb := Text.IntToString(b.studentId);
      assert GroupKey(a)[0] == sa[0] && GroupKey(b)[0] == sb[0];
      if a.studentId < 0 {
        DigitsHaveNoDash(-a.studentId);
        DigitsHaveNoDash(-b.studentId);
        assert GroupKey(a)[1..] == sa[1..] + "-" + a.examType;
        assert GroupKey(b)[1..] == sb[1..] + "-" + b.examType;
        Text.SeparatedUnique(sa[1..], a.examType, sb[1..], b.examType, '-');
        assert sa == "-" + sa[1..] && sb == "-" + sb[1..];
      } else {
        DigitsHaveNoDash(a.studentId);
        DigitsHaveNoDash(b.studentId);
        Text.SeparatedUnique(sa, a.examType, sb, b.examType, '-');
      }
    }
  }

  /** A new row, seeded from the first record of its group with every field at 0. */
  function Seed(r: Record): Row {
    Row(r.id, r.studentId, r.examType, ZeroMarks)
  }

  /** The `grouped` object: keys in insertion order and the row under each key. */
  datatype Grouped = Grouped(order: seq<string>, rows: map<string, Row>)

  predicate Coherent(g: Grouped) {
    Lists.NoDups(g.order) && g.rows.Keys == set k | k in g.order
  }

  /** One `forEach` step: create the group's row if it is new, then write the subject's field. */
  function Step(g: Grouped, r: Record): Grouped {
    var key := GroupKey(r);
    var seeded := if key in g.rows then g else Grouped(g.order + [key], g.rows[key := Seed(r)]);
    match SubjectField(r.subject)
    case None => seeded
    case Some(f) =>
      var row := seeded.rows[key];
      seeded.(rows := seeded.rows[key := row.(marks := Set(row.marks, f, r.marks))])
  }

  /** The `grouped` object after all records. */
  function Fold(records: seq<Record>): (g: Grouped)
    ensures Coherent(g)
    decreases |records|
  {
    if records == [] then Grouped([], map[])
    else
      var g := Fold(records[..|records| - 1]);
      var r := records[|records| - 1];
      var key := GroupKey(r);
      assert key in g.rows <==> key in g.order;
      Step(g, r)
  }

  /** `Object.values(grouped)`: the rows in key insertion order. */
  function Values(g: Grouped): (rows: seq<Row>)
    requires Coherent(g)
    ensures |rows| == |g.order|
  {
    seq(|g.order|, i requires 0 <= i < |g.order| => g.rows[g.order[i]])
  }

  /** `groupResultsByExam(records)`. */
  function Group(records: seq<Record>): seq<Row> {
    Values(Fold(records))
  }

  /** The group keys of the records, in input order. */
  function Keys(records: seq<Record>): (ks: seq<string>)
    ensures |ks| == |records| && forall i :: 0 <= i < |records| ==> ks[i] == GroupKey(records[i])
  {
    seq(|records|, i requires 0 <= i < |records| => GroupKey(records[i]))
  }

  /** `groupResultsByExam`, written as the source's `forEach` over a mutable dictionary. */
  method GroupResultsByExam(records: seq<Record>) returns (rows: seq<Row>)
    ensures rows == Group(records)
  {
    var order: seq<string> := [];
    var grouped: map<string, Row> := map[];
    for i := 0 to |records|
      invariant Grouped(order, grouped) == Fold(records[..i])
    {
      assert records[..i + 1][..i] == records[..i];
      var record := records[i];
      var groupKey := GroupKey(record);
      var subjectField := SubjectField(record.subject);
      if groupKey !in grouped {
        order := order + [groupKey];
        grouped := grouped[groupKey := Seed(record)];
      }
      if subjectField.Some? {
        var row := grouped[groupKey];
        grouped := grouped[groupKey := row.(marks := Set(row.marks, subjectField.value, record.marks))];
      }
    }
    assert records[..|records|] == records;
    rows := seq(|order|, i requires 0 <= i < |order| && order[i] in grouped => grouped[order[i]]);
  }

  // ---------------------------------------------------------------------
  // What the grouping computes
  // ---------------------------------------------------------------------

  /** Keys appear once each, in order of first appearance: one row per distinct (student, exam). */
  lemma {:induction false} FoldOrder(records: seq<Record>)
    ensures Fold(records).order == Lists.Distinct(Keys(records))
    decreases |records|
  {
    if records != [] {
      var n := |records| - 1;
      FoldOrder(records[..n]);
      assert Keys(records)[..n] == Keys(records[..n]);
      var g := Fold(records[..n]);
      assert GroupKey(records[n]) in g.rows <==> GroupKey(records[n]) in Keys(records[..n]);
    }
  }

  /** The record that seeds the row of `key`: the first record with that key. */
  function FirstOfGroup(records: seq<Record>, key: string): Option<nat> {
    Lists.FindIndex(records, (r: Record) => GroupKey(r) == key)
  }

  /** The record whose marks fill `f` in the row of `key`: the last such record. */
  function LastForField(records: seq<Record>, key: string, f: Field): Option<nat> {
    Lists.FindLastIndex(records, (r: Record) => GroupKey(r) == key && SubjectField(r.subject) == Some(f))
  }

  /** The row the grouping should produce for `key`, stated from the records alone. */
  predicate RowMatches(records: seq<Record>, key: string, row: Row) {
    match FirstOfGroup(records, key)
    case None => false
    case Some(i) =>
      row.id == records[i].id && row.studentId == records[i].studentId
      && row.examType == records[i].examType
      && forall f :: Get(row.marks, f) == FieldMarks(records, key, f)
  }

  /** The marks the row of `key` should show in field `f`: the last such record's, or 0. */
  function FieldMarks(records: seq<Record>, key: string, f: Field): int {
    match LastForField(records, key, f)
    case None => 0
    case Some(j) => records[j].marks
  }

  lemma LastForFieldAppend(records: seq<Record>, r: Record, key: string, f: Field)
    ensures LastForField(records + [r], key, f) ==
      if GroupKey(r) == key && SubjectField(r.subject) == Some(f) then Some(|records|)
      else LastForField(records, key, f)
  {
    assert (records + [r])[..|records|] == records;
  }

  /** What one `forEach` step does to the row under `key`. */
  lemma StepRow(g: Grouped, r: Record, key: string)
    ensures key in Step(g, r).rows <==> key in g.rows || key == GroupKey(r)
    ensures key != GroupKey(r) && key in g.rows ==> Step(g, r).rows[key] == g.rows[key]
    ensures key == GroupKey(r) ==>
      var base := if key in g.rows then g.rows[key] else Seed(r);
      var row := Step(g, r).rows[key];
      row.id == base.id && row.studentId == base.studentId && row.examType == base.examType
      && forall f :: Get(row.marks, f) == if SubjectField(r.subject) == Some(f) then r.marks else Get(base.marks, f)
  {
  }

  /** The first record of a group, after one more record. */
  lemma FirstOfGroupAppend(records: seq<Record>, r: Record, key: string)
    ensures FirstOfGroup(records + [r], key) ==
      if FirstOfGroup(records, key).Some? then FirstOfGroup(records, key)
      else if GroupKey(r) == key then Some(|records|)
      else None
  {
    Lists.FindIndexAppend(records, r, (x: Record) => GroupKey(x) == key);
  }

  /** A group with no record yet has no record for any field. */
  lemma LastForFieldNone(records: seq<Record>, key: string, f: Field)
    requires FirstOfGroup(records, key).None?
    ensures LastForField(records, key, f).None?
  {
  }

  /** `RowMatches` is kept by one more record, for the row under `key`. */
  lemma FoldRowStep(init: seq<Record>, r: Record, key: string)
    requires forall k :: k in Fold(init).rows ==> RowMatches(init, k, Fold(init).rows[k])
    requires key in Step(Fold(init), r).rows
    ensures RowMatches(init + [r], key, Step(Fold(init), r).rows[key])
  {
    var g := Fold(init);
    var records := init + [r];
    StepRow(g, r, key);
    FirstOfGroupAppend(init, r, key);
    forall f ensures LastForField(records, key, f) ==
      if GroupKey(r) == key && SubjectField(r.subject) == Some(f) then Some(|init|)
      else LastForField(init, key, f)
    {
      LastForFieldAppend(init, r, key, f);
    }
    if key != GroupKey(r) {
      assert RowMatches(init, key, g.rows[key]);
      assert FirstOfGroup(init, key).Some?;
    } else if key in g.rows {
      assert RowMatches(init, key, g.rows[key]);
    } else {
      assert key !in g.order;
      assert FirstOfGroup(init, key).None? by {
        if FirstOfGroup(init, key).Some? {
          FirstOfGroupInFold(init, key);
        }
      }
      forall f ensures LastForField(init, key, f).None? {
        LastForFieldNone(init, key, f);
      }
    }
  }

  /** A group that has a record has a row. */
  lemma {:induction false} FirstOfGroupInFold(records: seq<Record>, key: string)
    requires FirstOfGroup(records, key).Some?
    ensures key in Fold(records).rows
    decreases |records|
  {
    var n := |records| - 1;
    assert records == records[..n] + [records[n]];
    FirstOfGroupAppend(records[..n], records[n], key);
    StepRow(Fold(records[..n]), records[n], key);
    if FirstOfGroup(records[..n], key).Some? {
      FirstOfGroupInFold(records[..n], key);
    }
  }

  /**
   * Every row is seeded from the first record of its group (its `id` never
   * changes afterwards) and each field holds the marks of the group's last
   * record for that subject, or 0 when there is none.
   */
  lemma {:induction false} FoldRows(records: seq<Record>)
    ensures forall key :: key in Fold(records).rows ==> RowMatches(records, key, Fold(records).rows[key])
    decreases |records|
  {
    if records != [] {
      var n := |records| - 1;
      var init := records[..n];
      assert records == init + [records[n]];
      FoldRows(init);
      forall key | key in Fold(records).rows ensures RowMatches(records, key, Fold(records).rows[key]) {
        FoldRowStep(init, records[n], key);
      }
    }
  }

  /** The rows of `Group`, stated per position: row `i` belongs to the `i`-th distinct key. */
  lemma GroupCorrect(records: seq<Record>)
    ensures |Group(records)| == |Lists.Distinct(Keys(records))|
    ensures forall i :: 0 <= i < |Group(records)| ==>
      RowMatches(records, Lists.Distinct(Keys(records))[i], Group(records)[i])
  {
    FoldOrder(records);
    FoldRows(records);
  }

  /** Each (student, exam) pair gets at most one row. */
  lemma GroupRowsDistinct(records: seq<Record>)
    ensures forall i, j :: 0 <= i < j < |Group(records)| ==>
      (Group(records)[i].studentId, Group(records)[i].examType) !=
      (Group(records)[j].studentId, Group(records)[j].examType)
  {
    GroupCorrect(records);
    var ks := Lists.Distinct(Keys(records));
    forall i, j | 0 <= i < j < |Group(records)|
      ensures (Group(records)[i].studentId, Group(records)[i].examType) !=
              (Group(records)[j].studentId, Group(records)[j].examType)
    {
      var a := FirstOfGroup(records, ks[i]).value;
      var b := FirstOfGroup(records, ks[j]).value;
      GroupKeyInjective(records[a], records[b]);
    }
  }

  /**
   * A record whose subject is none of the seven fields changes no mark:
   * it only adds its group's seeded row when that group is new.
   */
  lemma UnknownSubjectOnlySeeds(records: seq<Record>, r: Record)
    requires SubjectField(r.subject).None?
    ensures GroupKey(r) in Fold(records).rows ==> Group(records + [r]) == Group(records)
    ensures GroupKey(r) !in Fold(records).rows ==> Group(records + [r]) == Group(records) + [Seed(r)]
  {
    assert (records + [r])[..|records|] == records;
  }

  /**
   * Last write wins: a later record for a group and subject overwrites that
   * field of the group's row and leaves every other field and row unchanged.
   */
  lemma LastWriteWins(records: seq<Record>, r: Record, f: Field)
    requires SubjectField(r.subject) == Some(f)
    requires GroupKey(r) in Fold(records).rows
    ensures var g := Fold(records);
      var i := Lists.IndexOf(g.order, GroupKey(r));
      var row := g.rows[GroupKey(r)];
      Group(records + [r]) == Group(records)[i := row.(marks := Set(row.marks, f, r.marks))]
  {
    assert (records + [r])[..|records|] == records;
    var g := Fold(records);
    var i := Lists.IndexOf(g.order, GroupKey(r));
    forall j | 0 <= j < |g.order| && j != i ensures g.order[j] != GroupKey(r) {
    }
  }

  // ---------------------------------------------------------------------
  // The exam filter
  // ---------------------------------------------------------------------

  /** `results.filter(r => filterExam === 'All' || r.exam_type === filterExam)`. */
  function FilterByExam(rows: seq<Row>, exam: string): seq<Row> {
    Lists.Filter(rows, (r: Row) => exam == "All" || r.examType == exam)
  }

  /** `'All'` keeps every row; any other value keeps exactly the matching rows, in order. */
  lemma FilterByExamSpec(rows: seq<Row>, exam: string)
    ensures exam == "All" ==> FilterByExam(rows, exam) == rows
    ensures exam != "All" ==> FilterByExam(rows, exam) == Lists.Filter(rows, (r: Row) => r.examType == exam)
    ensures exam != "All" ==> forall r :: r in FilterByExam(rows, exam) ==> r.examType == exam
  {
    if exam == "All" {
      Lists.FilterAll(rows, (r: Row) => exam == "All" || r.examType == exam);
    } else {
      Lists.FilterSame(rows, (r: Row) => exam == "All" || r.examType == exam, (r: Row) => r.examType == exam);
    }
  }

  // ---------------------------------------------------------------------
  // The submit payload
  // ---------------------------------------------------------------------

  /** The form: `student_id` is `''` (None) or a number; marks are numbers. */
  datatype Form = Form(studentId: Option<int>, examType: string, marks: Marks)

  const EmptyForm: Form := Form(None, "Final", ZeroMarks)

  /** A roster entry as `/admin/students` returns it; `class` may be absent. */
  datatype StudentOption = StudentOption(id: int, classNo: Option<int>)

  datatype Verb = Post | Put(target: int)

  /** The request `handleSubmit` sends. */
  datatype Submission = Submission(
    verb: Verb, studentId: int, studentClass: string, examType: string, marks: seq<(string, int)>)

  /** `payload.marks`: the seven uppercase subject keys, each carrying its row field. */
  function MarksPayload(m: Marks): (p: seq<(string, int)>)
    ensures |p| == 7
  {
    seq(7, i requires 0 <= i < 7 => (EnumName(MarkSubjects[i]), Get(m, MarkSubjects[i])))
  }

  /** Payload entry `i` is the `i`-th subject of `MARK_SUBJECTS` with its row field. */
  lemma MarksPayloadAt(m: Marks, i: nat)
    requires i < 7
    ensures MarksPayload(m)[i] == (EnumName(MarkSubjects[i]), Get(m, MarkSubjects[i]))
  {
  }

  /** No subject key appears twice in the payload. */
  lemma MarksPayloadDistinct(m: Marks)
    ensures Lists.NoDups(Lists.Keys(MarksPayload(m)))
  {
    var ks := Lists.Keys(MarksPayload(m));
    forall i, j | 0 <= i < j < 7 ensures ks[i] != ks[j] {
      MarksPayloadAt(m, i);
      MarksPayloadAt(m, j);
      SubjectFieldOfEnumName(MarkSubjects[i]);
      SubjectFieldOfEnumName(MarkSubjects[j]);
    }
  }

  /** The payload keys are exactly the seven subjects the backend requires. */
  lemma MarksPayloadKeySet(m: Marks)
    ensures (set i | 0 <= i < 7 :: MarksPayload(m)[i].0) == Models.RequiredSubjects
  {
    var p := MarksPayload(m);
    var keys := set i | 0 <= i < 7 :: p[i].0;
    EnumNamesRequired();
    forall f | f in MarkSubjects ensures EnumName(f) in keys {
      var i := Lists.IndexOf(MarkSubjects, f);
      MarksPayloadAt(m, i);
    }
    forall i | 0 <= i < 7 ensures p[i].0 in set f | f in MarkSubjects :: EnumName(f) {
      MarksPayloadAt(m, i);
    }
  }

  /** Payload key K carries exactly the row field `SUBJECT_KEY_MAP[K]`. */
  lemma MarksPayloadRoundTrip(m: Marks)
    ensures forall i :: 0 <= i < 7 ==>
      SubjectField(MarksPayload(m)[i].0).Some? &&
      MarksPayload(m)[i].1 == Get(m, SubjectField(MarksPayload(m)[i].0).value)
    ensures forall f :: Lists.Lookup(MarksPayload(m), EnumName(f)) == Some(Get(m, f))
  {
    var p := MarksPayload(m);
    forall i | 0 <= i < 7 ensures SubjectField(p[i].0) == Some(MarkSubjects[i]) {
      MarksPayloadAt(m, i);
      SubjectFieldOfEnumName(MarkSubjects[i]);
    }
    MarksPayloadDistinct(m);
    forall f ensures Lists.Lookup(p, EnumName(f)) == Some(Get(m, f)) {
      MarkSubjectsComplete(f);
      var i := Lists.IndexOf(MarkSubjects, f);
      MarksPayloadAt(m, i);
      LookupAt(p, i);
    }
  }

  lemma {:induction false} LookupAt(d: seq<(string, int)>, i: nat)
    requires i < |d| && Lists.NoDups(Lists.Keys(d))
    ensures Lists.Lookup(d, d[i].0) == Some(d[i].1)
    decreases i
  {
    if i > 0 {
      assert Lists.Keys(d)[0] != Lists.Keys(d)[i];
      assert Lists.Keys(d[1..]) == Lists.Keys(d)[1..];
      LookupAt(d[1..], i - 1);
    }
  }

  /** `studentId` when it is neither 0 nor NaN (JavaScript truthiness of `Number(...)`). */
  function NumberOf(v: Option<int>): int {
    if v.Some? then v.value else 0
  }

  /** `selectedClass ?? selectedStudent?.class`. */
  function ResolveClass(selectedClass: Option<int>, students: seq<StudentOption>, studentId: int): Option<int> {
    if selectedClass.Some? then selectedClass
    else match Lists.Find(students, (s: StudentOption) => s.id == studentId)
      case None => None
      case Some(s) => s.classNo
  }

  /** Whether `handleSubmit` sends a PUT: the edit target is truthy. */
  function VerbFor(editing: Option<int>): Verb {
    if editing.Some? && editing.value != 0 then Put(editing.value) else Post
  }

  /** The validation and payload construction of `handleSubmit`. */
  function BuildSubmission(form: Form, students: seq<StudentOption>, selectedClass: Option<int>,
                           editing: Option<int>): (r: Result<Submission, string>)
    ensures NumberOf(form.studentId) == 0 ==> r == Err("Please select a valid student")
    ensures NumberOf(form.studentId) != 0 && ResolveClass(selectedClass, students, NumberOf(form.studentId)) in {None, Some(0)}
      ==> r == Err("Student class is required")
    ensures r.Ok? ==>
      var c := ResolveClass(selectedClass, students, NumberOf(form.studentId));
      r.value.studentId == NumberOf(form.studentId) != 0
      && c.Some? && c.value != 0 && r.value.studentClass == Text.IntToString(c.value)
      && r.value.examType == form.examType && r.value.verb == VerbFor(editing)
      && forall f :: Lists.Lookup(r.value.marks, EnumName(f)) == Some(Get(form.marks, f))
    ensures r.Err? ==> r.error in {"Please select a valid student", "Student class is required"}
  {
    var studentId := NumberOf(form.studentId);
    var studentClass := ResolveClass(selectedClass, students, studentId);
    if studentId == 0 then Err("Please select a valid student")
    else if studentClass.None? || studentClass.value == 0 then Err("Student class is required")
    else
      MarksPayloadRoundTrip(form.marks);
      Ok(Submission(VerbFor(editing), studentId, Text.IntToString(studentClass.value), form.examType,
                    MarksPayload(form.marks)))
  }

  /** The form `handleEdit` fills from a grade-sheet row. */
  function EditForm(row: Row): Form {
    Form(Some(row.studentId), row.examType, row.marks)
  }

  /**
   * Editing a row and submitting it sends a PUT to that row's id carrying
   * exactly the row's seven marks under their uppercase subject keys.
   */
  lemma EditSubmitRoundTrip(row: Row, students: seq<StudentOption>, selectedClass: Option<int>)
    requires row.studentId != 0 && row.id != 0
    requires ResolveClass(selectedClass, students, row.studentId) !in {None, Some(0)}
    ensures var r := BuildSubmission(EditForm(row), students, selectedClass, Some(row.id));
      r.Ok? && r.value.verb == Put(row.id) && r.value.studentId == row.studentId
      && r.value.examType == row.examType
      && forall f :: Lists.Lookup(r.value.marks, EnumName(f)) == Some(Get(row.marks, f))
  {
  }

  // ---------------------------------------------------------------------
  // The screen
  // ---------------------------------------------------------------------

  /** The list request `fetchResultsBySelection` issues. */
  datatype Endpoint = ByStudent(student: string) | ByClass(classNo: int)

  /** The result-sheet screen's state. */
  class ResultsPage {
    var results: seq<Row>
    var students: seq<StudentOption>
    /** `selectedClass`: `null` or the chosen class. */
    var selectedClass: Option<int>
    /** `selectedStudentId`: the student select's value, `''` when none is chosen. */
    var selectedStudentId: string
    var filterExam: string
    var form: Form
    var editing: Option<int>
    var showForm: bool
    var error: string
    var success: string

    /** The class selector holds a truthy value. */
    predicate ClassChosen()
      reads this
    {
      selectedClass.Some? && selectedClass.value != 0
    }

    predicate StudentChosen()
      reads this
    {
      selectedStudentId != ""
    }

    /** The two selectors never both hold a choice. */
    predicate Valid()
      reads this
    {
      !(ClassChosen() && StudentChosen())
    }

    constructor ()
      ensures Valid()
      ensures results == [] && students == [] && selectedClass == None && selectedStudentId == ""
      ensures filterExam == "All" && form == EmptyForm && editing == None && !showForm
      ensures error == "" && success == ""
    {
      results := [];
      students := [];
      selectedClass := None;
      selectedStudentId := "";
      filterExam := "All";
      form := EmptyForm;
      editing := None;
      showForm := false;
      error := "";
      success := "";
    }

    /** The class selector's `onChange`: a truthy class clears the student choice. */
    method SelectClass(value: Option<int>)
      requires Valid()
      modifies this
      ensures Valid()
      ensures selectedClass == value
      ensures selectedStudentId == if value.Some? && value.value != 0 then "" else old(selectedStudentId)
      ensures results == old(results) && form == old(form) && editing == old(editing)
      ensures filterExam == old(filterExam) && students == old(students)
      ensures showForm == old(showForm) && error == old(error) && success == old(success)
    {
      selectedClass := value;
      if value.Some? && value.value != 0 {
        selectedStudentId := "";
      }
    }

    /** The student selector's `onChange`: a chosen student clears the class choice. */
    method SelectStudent(value: string)
      requires Valid()
      modifies this
      ensures Valid()
      ensures selectedStudentId == value
      ensures selectedClass == if value != "" then None else old(selectedClass)
      ensures results == old(results) && form == old(form) && editing == old(editing)
      ensures filterExam == old(filterExam) && students == old(students)
      ensures showForm == old(showForm) && error == old(error) && success == old(success)
    {
      selectedStudentId := value;
      if value != "" {
        selectedClass := None;
      }
    }

    /** The request the current selection asks for: the student wins over the class. */
    function Request(): (e: Option<Endpoint>)
      reads this
      ensures e.None? <==> !ClassChosen() && !StudentChosen()
      ensures StudentChosen() ==> e == Some(ByStudent(selectedStudentId))
      ensures !StudentChosen() && ClassChosen() ==> e == Some(ByClass(selectedClass.value))
    {
      if StudentChosen() then Some(ByStudent(selectedStudentId))
      else if ClassChosen() then Some(ByClass(selectedClass.value))
      else None
    }

    /**
     * `fetchResultsBySelection`: with nothing selected the sheet is cleared;
     * otherwise the response, given as a parameter, is grouped into rows or
     * its error is shown.
     */
    method FetchResults(response: Result<seq<Record>, ErrorMessage.Detail>) returns (sent: Option<Endpoint>)
      requires Valid()
      modifies this
      ensures Valid()
      ensures sent == old(Request())
      ensures sent.None? ==> results == [] && error == ""
      ensures sent.Some? && response.Ok? ==> results == Group(response.value) && error == ""
      ensures sent.Some? && response.Err? ==>
        results == old(results) && error == ErrorMessage.Extract(response.error)
      ensures selectedClass == old(selectedClass) && selectedStudentId == old(selectedStudentId)
      ensures form == old(form) && editing == old(editing) && students == old(students)
      ensures filterExam == old(filterExam) && showForm == old(showForm) && success == old(success)
    {
      sent := Request();
      if sent.None? {
        results := [];
        error := "";
        return;
      }
      match response
      case Ok(records) =>
        var rows := GroupResultsByExam(records);
        results := rows;
        error := "";
      case Err(detail) =>
        error := ErrorMessage.Extract(detail);
    }

    /** `resetForm`. */
    method ResetForm()
      requires Valid()
      modifies this
      ensures Valid()
      ensures form == EmptyForm && editing == None && !showForm
      ensures results == old(results) && selectedClass == old(selectedClass)
      ensures selectedStudentId == old(selectedStudentId) && students == old(students)
      ensures filterExam == old(filterExam) && error == old(error) && success == old(success)
    {
      form := EmptyForm;
      editing := None;
      showForm := false;
    }

    /** `handleEdit`: copy the row into the form and make its id the edit target. */
    method Edit(row: Row)
      requires Valid()
      modifies this
      ensures Valid()
      ensures form == EditForm(row) && editing == Some(row.id) && showForm
      ensures results == old(results) && selectedClass == old(selectedClass)
      ensures selectedStudentId == old(selectedStudentId) && students == old(students)
      ensures filterExam == old(filterExam) && error == old(error) && success == old(success)
    {
      form := EditForm(row);
      editing := Some(row.id);
      showForm := true;
    }

    /**
     * `handleSubmit`: a rejected form sets the message and sends nothing;
     * otherwise the request is sent and its outcome, given as a parameter,
     * either resets the form with a success message and then refetches the
     * selection (`refetch` is that request's outcome), or shows the error.
     */
    method Submit(response: Result<(), ErrorMessage.Detail>, refetch: Result<seq<Record>, ErrorMessage.Detail>)
      returns (sent: Option<Submission>, refetched: Option<Endpoint>)
      requires Valid()
      modifies this
      ensures Valid()
      ensures var b := old(BuildSubmission(form, students, selectedClass, editing));
        (b.Err? ==> sent.None? && error == b.error && form == old(form) && editing == old(editing)
                    && showForm == old(showForm) && success == old(success))
        && (b.Ok? ==> sent == Some(b.value))
      ensures sent.Some? && response.Ok? ==>
        form == EmptyForm && editing == None && !showForm
        && success == (if sent.value.verb.Put? then "Result updated successfully" else "Result added successfully")
        && refetched == old(Request())
        && (refetched.None? ==> results == [] && error == "")
        && (refetched.Some? && refetch.Ok? ==> results == Group(refetch.value) && error == "")
        && (refetched.Some? && refetch.Err? ==> results == old(results) && error == ErrorMessage.Extract(refetch.error))
      ensures sent.Some? && response.Err? ==>
        error == ErrorMessage.Extract(response.error) && form == old(form) && editing == old(editing)
        && showForm == old(showForm) && success == old(success)
      ensures !(sent.Some? && response.Ok?) ==> results == old(results) && refetched.None?
      ensures selectedClass == old(selectedClass)
      ensures selectedStudentId == old(selectedStudentId) && students == old(students)
      ensures filterExam == old(filterExam)
    {
      refetched := None;
      error := "";
      var built := BuildSubmission(form, students, selectedClass, editing);
      if built.Err? {
        error := built.error;
        sent := None;
        return;
      }
      sent := Some(built.value);
      match response
      case Ok(_) =>
        success := if built.value.verb.Put? then "Result updated successfully" else "Result added successfully";
        ResetForm();
        refetched := FetchResults(refetch);
      case Err(detail) =>
        error := ErrorMessage.Extract(detail);
    }

    /** `filteredResults`. */
    function FilteredResults(): seq<Row>
      reads this
    {
      FilterByExam(results, filterExam)
    }
  }
}
