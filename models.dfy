/**
 * The backend's enumerations and table rows: classes 1 to 10, subjects,
 * attendance statuses, document categories, and the student, result,
 * attendance, fee and document records as the database stores them.
 */
module Models {

  import opened Wrappers
  import Lists

  /** `ClassEnum`: a class number between 1 and 10. */
  predicate ValidClass(c: int) {
    1 <= c <= 10
  }

  // ---------------------------------------------------------------------
  // Subjects
  // ---------------------------------------------------------------------

  /** `SubjectEnum`: the seven current subjects and four legacy ones. */
  datatype Subject =
    | SocialStudies | PhysicalEducation | Art | Science | Maths | English | Hindi
    | Physics | Chemistry | Biology | Computer

  /** A member's name, which is also its value. */
  function SubjectName(s: Subject): string {
    match s
    case SocialStudies => "SOCIAL_STUDIES"
    case PhysicalEducation => "PHYSICAL_EDUCATION"
    case Art => "ART"
    case Science => "SCIENCE"
    case Maths => "MATHS"
    case English => "ENGLISH"
    case Hindi => "HINDI"
    case Physics => "PHYSICS"
    case Chemistry => "CHEMISTRY"
    case Biology => "BIOLOGY"
    case Computer => "COMPUTER"
  }

  /** `SubjectEnum(value)` and `name in SubjectEnum.__members__`: the member with this name, if any. */
  function ParseSubject(name: string): (r: Option<Subject>)
    ensures r.Some? ==> SubjectName(r.value) == name
  {
    if name == "SOCIAL_STUDIES" then Some(SocialStudies)
    else if name == "PHYSICAL_EDUCATION" then Some(PhysicalEducation)
    else if name == "ART" then Some(Art)
    else if name == "SCIENCE" then Some(Science)
    else if name == "MATHS" then Some(Maths)
    else if name == "ENGLISH" then Some(English)
    else if name == "HINDI" then Some(Hindi)
    else if name == "PHYSICS" then Some(Physics)
    else if name == "CHEMISTRY" then Some(Chemistry)
    else if name == "BIOLOGY" then Some(Biology)
    else if name == "COMPUTER" then Some(Computer)
    else None
  }

  /** Every member is found again under its own name, so names identify members. */
  lemma ParseSubjectName(s: Subject)
    ensures ParseSubject(SubjectName(s)) == Some(s)
  {
  }

  /** The seven subjects a result sheet must carry. */
  const RequiredSubjects: set<string> :=
    {"HINDI", "ENGLISH", "MATHS", "SCIENCE", "SOCIAL_STUDIES", "PHYSICAL_EDUCATION", "ART"}

  /** The required subjects are members of the enumeration. */
  lemma RequiredAreSubjects(name: string)
    requires name in RequiredSubjects
    ensures ParseSubject(name).Some?
  {
  }

  // ---------------------------------------------------------------------
  // Attendance and documents
  // ---------------------------------------------------------------------

  /** `AttendanceStatus`. */
  datatype AttendanceStatus = Present | Absent | Holiday

  function StatusName(s: AttendanceStatus): string {
    match s
    case Present => "PRESENT"
    case Absent => "ABSENT"
    case Holiday => "HOLIDAY"
  }

  /** `PdfCategory`: the category names a stored document may have. */
  const PdfCategories: seq<string> := ["NOTICE", "DATESHEET", "CIRCULAR", "EVENT"]

  // ---------------------------------------------------------------------
  // Table rows
  // ---------------------------------------------------------------------

  /** A `students` row; `dob` is kept as its ISO text. */
  datatype Student = Student(
    id: int,
    studentId: string,
    name: string,
    classNo: int,
    dob: string,
    aadhaar: string,
    fatherName: Option<string>,
    motherName: Option<string>,
    phone: Option<string>,
    address: Option<string>)

  /** A `results` row: one subject's marks in one exam. */
  datatype ResultRow = ResultRow(
    id: int,
    studentId: int,
    classNo: int,
    subject: Subject,
    marks: int,
    examType: string)

  /** An `attendances` row; `date` is kept as its ISO text. */
  datatype Attendance = Attendance(
    id: int,
    studentId: int,
    classNo: int,
    date: string,
    status: AttendanceStatus)

  /** A `fees` row; `paidAt` is the opaque `payment_date` timestamp. */
  datatype Fee = Fee(
    id: int,
    studentId: int,
    amount: real,
    paid: real,
    due: real,
    paidAt: Option<int>,
    remark: Option<string>)

  /** A `pdfs` row; `uploadDate` is a timestamp. */
  datatype Pdf = Pdf(
    id: int,
    title: string,
    category: string,
    filePath: string,
    uploadDate: int,
    isPublic: bool)

  /** The sort key of documents: the upload timestamp. */
  function UploadDate(p: Pdf): int {
    p.uploadDate
  }

  function CategoryIs(category: string): Pdf -> bool {
    (p: Pdf) => p.category == category
  }

  /** `pdfs.map(p => p.category)`. */
  function CategoriesOf(pdfs: seq<Pdf>): (cs: seq<string>)
    ensures |cs| == |pdfs| && forall i :: 0 <= i < |pdfs| ==> cs[i] == pdfs[i].category
  {
    seq(|pdfs|, i requires 0 <= i < |pdfs| => pdfs[i].category)
  }

  /** The student with this primary key (`db.query(Student).filter(Student.id == id).first()`). */
  function FindStudent(students: seq<Student>, id: int): (r: Option<Student>)
    ensures r.Some? ==> r.value in students && r.value.id == id
    ensures r.None? ==> forall j :: 0 <= j < |students| ==> students[j].id != id
  {
    match Lists.FindIndex(students, (s: Student) => s.id == id)
    case None => None
    case Some(k) => Some(students[k])
  }
}
