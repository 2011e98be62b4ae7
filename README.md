# Us-Academy school portal: a verified model of its data rules

Us-Academy is a school portal. Its React frontend serves public pages, a
student area and an admin area, and its FastAPI backend keeps students,
attendance, fees, results and published documents in an SQL database
through SQLAlchemy. This project models, in Dafny, the rules inside that
code that decide what is stored and what is shown:

- the admin result sheet, which folds per-subject records into one row per
  student and exam, and the seven-subject payload it submits;
- the backend's validation of a result submission and the batch insertion
  that skips subjects already recorded;
- attendance: the admin page's selection and the batch it builds, and the
  backend's one-record-per-student-per-day upsert with its success and
  failure counts;
- student codes of the form `STU{class}{roll:03d}`: parsing, generation of a
  fresh code, and the bounded retry on a uniqueness conflict;
- fee records and their balance `due = amount - paid`, and how the fees
  route resolves a student identifier;
- document uploads: category checks, the stored extension and path, the
  access rule for private documents, and the rewrite of legacy stored paths;
- the text shown for an API error, and how the admin route classifies
  database uniqueness errors;
- the list transforms of the student and public screens (filters, distinct
  categories and exam types, counts, newest-first sorting, the three latest
  notices);
- the parsing of the CORS origins setting and the database URL rewrite.

Each database table is a class whose rows are a `seq` field, with the
primary key kept distinct by the class invariant `Valid()`. Each screen is a
function of its inputs, or a class when the source steps its state. Network
replies, commit outcomes, the development/production switch, generated UUIDs
and clock readings are parameters. Shared pieces live in `wrappers.dfy`
(`Option`, `Result`), `text.dfy` (Python and JavaScript string operations,
decimal text), `lists.dfy` (filter, map, distinct, stable sort, key/value
lists) and `models.dfy` (the backend's entities and enums).

On the admin result sheet, each row's `id` is the id of the FIRST record of
its student and exam, because later records never re-seed it
(frontend/src/pages/admin/Results.jsx:24-37).

## Model

| member | source | states |
|---|---|---|
| Models.ParseSubject | backend/app/enums/subject_enum.py:5-19 | a name that parses names the member it parses to |
| Models.ParseSubjectName | backend/app/enums/subject_enum.py:5-19 | each of the eleven members, the four legacy ones included, parses back from its own name |
| Models.RequiredAreSubjects | backend/app/routes/results.py:58-73 | each of the seven required subjects is a member of the enumeration |
| Models.CategoriesOf | frontend/src/pages/student/Pdfs.jsx:27 | the category of each document, position by position |
| Models.FindStudent | backend/app/services/attendance.py:49 | a found student is in the table with that key; nothing is found exactly when no student has the key |
| ErrorMessage.Extract | frontend/src/utils/error.js:1-13 | the message is never empty, and it is the default text, a non-blank string detail verbatim, or the first array item's message |
| ErrorMessage.TextDetail | frontend/src/utils/error.js:8-12 | a string detail that is not blank after trimming is shown untrimmed; a blank one gives "Something went wrong" |
| ErrorMessage.ItemsDetail | frontend/src/utils/error.js:4-6 | a non-empty array shows its first item's `msg`, or the default when that is null, missing or empty |
| ErrorMessage.DefaultCases | frontend/src/utils/error.js:2-12 | a missing detail, an empty array and a value of any other type all give the default text |
| FeesService.NewFee | backend/app/services/fees.py:32-40 | the inserted row is balanced (due = amount - paid), carries the given fields, has no payment date, and nothing is due exactly when everything is paid |
| FeesService.Updated | backend/app/services/fees.py:103-109 | a given paid amount replaces the old one, rebalances the row against the unchanged total and stamps the payment date; a given remark replaces the old one; absent fields are kept |
| FeesService.UpdatePreservesBalance | backend/app/services/fees.py:103-109 | an update keeps a balanced row balanced, with or without a new paid amount |
| FeesService.UpdateIdempotent | backend/app/services/fees.py:103-109 | applying the same update twice gives the same row as applying it once |
| FeesService.EmptyUpdate | backend/app/services/fees.py:103-109 | an update with neither a paid amount nor a remark leaves the row unchanged |
| FeesService.DocumentedExample | backend/app/routes/fees.py:115-117 | amount 10000 with 3000 paid leaves 7000 due; updating the paid amount to 8000 leaves 2000 due |
| FeesService.IndexOfFee | backend/app/services/fees.py:59 | a found position holds a row with that key, and no row has the key when nothing is found |
| FeesService.GetFee | backend/app/services/fees.py:48-59 | the returned row is in the table and has the key; `None` exactly when no row has the key |
| FeesService.StudentFees | backend/app/services/fees.py:62-75 | the list holds exactly the student's rows, and read backwards it is those rows in table order, which is creation order; so the newest comes first |
| FeesService.AppendFee | backend/app/services/fees.py:34-44 | appending a balanced row under the next key keeps the keys distinct and below the new counter, and every row balanced |
| FeesService.ReplaceFee | backend/app/services/fees.py:98-113 | replacing a row by a balanced row with the same key keeps the table consistent |
| FeesService.FeeStore.constructor | backend/app/services/fees.py:10-45 | the table starts empty and consistent, with keys counted from 1 |
| FeesService.FeeStore.CreateFee | backend/app/services/fees.py:10-45 | the new balanced row is appended under the next key, a key no earlier row holds, and the table stays consistent |
| FeesService.FeeStore.UpdateFee | backend/app/services/fees.py:78-113 | an unknown key changes nothing and gives `None`; otherwise only that row is replaced by its update, which is returned |
| FeesService.FeeStore.DeleteFee | backend/app/services/fees.py:116-134 | reports whether the key existed; an existing row is removed, the others keep their order, and afterwards no row has the key |
| FeesRoute.ResolveStudent | backend/app/routes/fees.py:61-72 | an all-digit identifier is taken as the primary key without a lookup; any other resolves to the key of a student with that code, or to nothing when no student has it |
| FeesRoute.StudentFeesList | backend/app/routes/fees.py:50-78 | an unresolved identifier gives an empty list rather than a 404; otherwise exactly the resolved student's fees, newest first (the reverse of table order) |
| FeesRoute.ResolutionCases | backend/app/routes/fees.py:63-75 | a decimal key lists that key's fees; an unknown student code gives an empty list even when fees exist |
| FeesRoute.GetFeeRecord | backend/app/routes/fees.py:81-100 | 404 "Fee record not found" exactly when no row has the key; otherwise a row with the key |
| FeesRoute.AddFee | backend/app/routes/fees.py:20-47 | the reply is always the created row, appended to the table with the key counter advanced by one, so the route's "Student not found" 404 is never sent |
| FeesRoute.UpdateFeeRecord | backend/app/routes/fees.py:103-129 | an unknown key is a 404 and changes nothing; otherwise the updated row is stored and returned; the key counter never moves |
| FeesRoute.DeleteFeeRecord | backend/app/routes/fees.py:132-151 | a 404 exactly when the key was unknown, with nothing changed; otherwise exactly that row is removed and the others keep their order; the key counter never moves |
| PdfsService.CategoryDir | backend/app/services/pdfs.py:16-28 | the category folder is a lower-case name of the category's length that matches the category ignoring case |
| PdfsService.ForwardSlashes | backend/app/services/pdfs.py:78 | every backslash becomes a forward slash and every other character is kept, so no backslash is left |
| PdfsService.CanonicalFixed | backend/app/services/pdfs.py:78-90 | a path already in the form `uploads/{lower-case folder}/{file}` is rewritten to itself, so it is never changed |
| PdfsService.NormalizedCanonical | backend/app/services/pdfs.py:78-85 | every rewritten path is canonical: `uploads`, a lower-case folder, the rest, no backslash |
| PdfsService.NormalizeIdempotent | backend/app/services/pdfs.py:78-93 | normalising an already normalised path changes nothing |
| PdfsService.UpperFolderLowered | backend/app/services/pdfs.py:82-83 | three pieces under `uploads` become `uploads/{lower-cased folder}/{rest}`, the rest kept verbatim |
| PdfsService.MissingPrefixAdded | backend/app/services/pdfs.py:84-85 | exactly two pieces become `uploads/{lower-cased first}/{second}` |
| PdfsService.BareNameUnchanged | backend/app/services/pdfs.py:75-88 | an empty path or a single piece with no separator is left alone |
| PdfsService.ForeignThreeUnchanged | backend/app/services/pdfs.py:82-88 | three pieces whose first is not `uploads` in any letter case are left alone |
| PdfsService.LeadingSeparatorIgnored | backend/app/services/pdfs.py:78-79 | a leading slash or backslash does not change the rewrite: backslashes turn into slashes before leading slashes are dropped |
| PdfsService.SplitThree | backend/app/services/pdfs.py:79 | a path with two separators, the first two pieces free of them, splits into exactly those three pieces, the last keeping any further slashes |
| PdfsService.NormalizeAll | backend/app/services/pdfs.py:74-92 | every row is replaced by its normalised row, position by position |
| PdfsService.NormalizeAllIdempotent | backend/app/services/pdfs.py:64-95 | a second run over the normalised table changes no row, so it never commits |
| PdfsService.NormalizeKeys | backend/app/services/pdfs.py:90-92 | rewriting paths keeps every primary key, so keys stay distinct and below the counter |
| PdfsService.UpdatedPdf | backend/app/services/pdfs.py:173-177 | only a given title and a given public flag replace the old ones; key, category, path and upload date are kept |
| PdfsService.UpdatedPdfLaws | backend/app/services/pdfs.py:173-177 | an update with neither field changes nothing, and repeating an update changes nothing more |
| PdfsService.IndexOfPdf | backend/app/services/pdfs.py:109 | a found position holds a row with that key; no row has the key when nothing is found |
| PdfsService.GetPdf | backend/app/services/pdfs.py:98-109 | the returned row is in the table and has the key; `None` exactly when no row has it |
| PdfsService.PdfStore.constructor | backend/app/services/pdfs.py:31-61 | the table starts empty, with keys counted from 1 |
| PdfsService.PdfStore.CreatePdf | backend/app/services/pdfs.py:31-61 | the row with the given fields is appended under the next key and the keys stay distinct |
| PdfsService.PdfStore.NormalizeLegacyPaths | backend/app/services/pdfs.py:64-95 | afterwards the table is the normalised old table, with keys kept, and a commit happens exactly when some row changed |
| PdfsService.PdfStore.RewriteRow | backend/app/services/pdfs.py:75-92 | one pass of the loop: only row `i` changes, to its normalised form, and the pass reports whether it changed |
| PdfsService.PdfStore.UpdatePdf | backend/app/services/pdfs.py:150-181 | an unknown key gives `None` and changes nothing; otherwise only that row is replaced by its update |
| PdfsService.PdfStore.DeletePdf | backend/app/services/pdfs.py:184-211 | reports whether the key existed; an existing row is removed even when removing its file fails; afterwards no row has the key |
| PdfsRoute.ValidateUpload | backend/app/routes/pdfs.py:44-62 | an empty category is refused first, then an empty title, then a category whose upper-case form is not one of the four; accepted uploads store the upper-cased category |
| PdfsRoute.StudyMaterialRefused | backend/app/routes/pdfs.py:57-62 | `STUDY_MATERIAL`, which the admin form offers, is refused with the category message |
| PdfsRoute.Extension | backend/app/routes/pdfs.py:70 | the extension holds no dot; it is `pdf` for a name without a dot and otherwise the text after the name's last dot |
| PdfsRoute.ExtensionFrom | backend/app/routes/pdfs.py:70 | the extension holds only characters of the uploaded name or of `pdf` |
| PdfsRoute.StoredPathCanonical | backend/app/routes/pdfs.py:66-82 | the stored path's folder is the lower-cased category, and the stored path is already canonical, so the legacy rewrite never touches it |
| PdfsRoute.UploadPdf | backend/app/routes/pdfs.py:25-90 | a refused upload stores nothing; a failure while saving is a 500 "File upload failed: ..." storing nothing; otherwise one row with the upper-cased category and the stored path is appended and the key counter advances by one; a refusal or failure leaves the counter alone |
| PdfsRoute.GetPdfDetails | backend/app/routes/pdfs.py:141-169 | 404 exactly for an unknown key; a found document is returned exactly when it is public or the caller is an admin, and is a 403 "Access denied" otherwise |
| PdfsRoute.UpdatePdfMetadata | backend/app/routes/pdfs.py:172-192 | an unknown key is a 404 and changes nothing; otherwise the updated row is stored and returned; the key counter never moves |
| PdfsRoute.DeletePdfRecord | backend/app/routes/pdfs.py:195-215 | a 404 exactly when the key was unknown, with nothing changed; otherwise exactly that row is removed and the others keep their order; the key counter never moves |
| AdminFeesPage.SearchFor | frontend/src/pages/admin/Fees.jsx:47-70 | an empty term is refused with "Please enter a search term"; "not found" exactly when no student's code equals the trimmed, lower-cased term ignoring case; otherwise the fees of the first such student are requested by primary key |
| AdminFeesPage.SearchIgnoresCaseAndPadding | frontend/src/pages/admin/Fees.jsx:59-62 | two non-empty terms equal after trimming and lower-casing find the same student |
| AdminFeesPage.FetchResolvesToStudent | frontend/src/pages/admin/Fees.jsx:70 | the key the screen puts in the fees request is the key the fees route resolves, with no lookup |
| AdminFeesPage.AfterSearch | frontend/src/pages/admin/Fees.jsx:48-68 | a refused search only sets its message; no match empties the list and shows "Student not found"; a match clears the error |
| AdminFeesPage.AfterDelete | frontend/src/pages/admin/Fees.jsx:133 | no kept fee has the deleted id, every other fee is kept as often as it occurred, and the kept fees are in their old order |
| AdminFeesPage.DeleteAbsent | frontend/src/pages/admin/Fees.jsx:133 | deleting an id not in the list keeps the list as it was |
| AdminFeesPage.Edit | frontend/src/pages/admin/Fees.jsx:116-125 | the fee's student key printed in decimal, amount, paid amount and remark fill the form, its id is the edit target and the dialog opens |
| AdminFeesPage.EditStudentRoundTrip | frontend/src/pages/admin/Fees.jsx:94-118 | the student key copied into the form as a string reads back, through `parseInt`, as the fee's student |
| AdminFeesPage.AddNew | frontend/src/pages/admin/Fees.jsx:139-143 | a new entry gets a blank form (empty student, blank amounts, empty remark) and no edit target, and it opens the dialog |
| AdminAttendancePage.SetStatus | frontend/src/pages/admin/Attendance.jsx:35-40 | setting a status keeps the selection ordered by key |
| AdminAttendancePage.SetStatusLookup | frontend/src/pages/admin/Attendance.jsx:35-40 | only the chosen key changes, to the chosen status, the empty "Select" value included; every other key keeps its status |
| AdminAttendancePage.SetStatusKeys | frontend/src/pages/admin/Attendance.jsx:35-40 | the keys afterwards are the old keys plus the chosen one, so no key is ever removed |
| AdminAttendancePage.EntriesSpec | frontend/src/pages/admin/Attendance.jsx:56-59 | the batch has one entry per selected key: the student id parses back to the key and the status is upper-cased; entries come in ascending key order |
| AdminAttendancePage.Entries | frontend/src/pages/admin/Attendance.jsx:56-59 | the batch has as many entries as the selection |
| AdminAttendancePage.SubmitCheck | frontend/src/pages/admin/Attendance.jsx:43-50 | an empty selection is refused first, then a date not shaped `dddd-dd-dd`; a batch is sent exactly when both checks pass |
| AdminAttendancePage.AttendancePage.constructor | frontend/src/pages/admin/Attendance.jsx:6-13 | the screen starts with no class, no date, no roster, no messages and an empty selection |
| AdminAttendancePage.AttendancePage.LoadStudents | frontend/src/pages/admin/Attendance.jsx:15-33 | without a class and a date only the error is set and nothing is fetched; a loaded roster replaces the old one and clears the selection; a failed load empties the roster and shows the error |
| AdminAttendancePage.AttendancePage.StatusChange | frontend/src/pages/admin/Attendance.jsx:35-40 | the selection becomes the old one with that key set, and nothing else on the screen changes |
| AdminAttendancePage.AttendancePage.Submit | frontend/src/pages/admin/Attendance.jsx:42-80 | a refused submit sends nothing and shows its message; the sent batch carries the class and date untouched and the entries of the selection; success resets selection, roster, class and date; failure keeps them and shows the error |
| AdminResultsPage.SubjectField | frontend/src/pages/admin/Results.jsx:7-22 | a subject name that maps to a field is that field's enumeration name |
| AdminResultsPage.SubjectFieldOfEnumName | frontend/src/pages/admin/Results.jsx:7-15 | each of the seven enumeration names maps back to its own field, so the map is one-to-one |
| AdminResultsPage.MarkSubjectsComplete | frontend/src/pages/admin/Results.jsx:6 | the field list has seven entries, each field once |
| AdminResultsPage.EnumNamesRequired | frontend/src/pages/admin/Results.jsx:7-15 | the seven keys of the map are exactly the subject set the backend requires |
| AdminResultsPage.Set | frontend/src/pages/admin/Results.jsx:40 | writing a field gives it the new marks and leaves the other six fields alone |
| AdminResultsPage.MarksExt | frontend/src/pages/admin/Results.jsx:25-36 | two rows' marks agreeing on all seven fields are the same marks |
| AdminResultsPage.DigitsHaveNoDash | frontend/src/pages/admin/Results.jsx:21 | a printed non-negative student id holds no `-`, the separator of the group key |
| AdminResultsPage.GroupKeyInjective | frontend/src/pages/admin/Results.jsx:21 | two records share a group key exactly when they share student id and exam type |
| AdminResultsPage.Fold | frontend/src/pages/admin/Results.jsx:18-42 | the dictionary built by the loop holds each key once, and its keys are exactly the keys in insertion order |
| AdminResultsPage.GroupResultsByExam | frontend/src/pages/admin/Results.jsx:17-45 | the loop over the mutable dictionary returns exactly the rows of the grouping's definition |
| AdminResultsPage.FoldOrder | frontend/src/pages/admin/Results.jsx:20-44 | the row keys are the records' group keys without repeats, in order of first appearance |
| AdminResultsPage.StepRow | frontend/src/pages/admin/Results.jsx:24-41 | one step creates the record's row if it is new, writes at most the record's subject field, and leaves every other row as it was |
| AdminResultsPage.FirstOfGroupAppend | frontend/src/pages/admin/Results.jsx:24 | a later record never changes which record is the first of an existing group |
| AdminResultsPage.LastForFieldAppend | frontend/src/pages/admin/Results.jsx:39-41 | the record that fills a field is the newest record of that group and subject |
| AdminResultsPage.FoldRowStep | frontend/src/pages/admin/Results.jsx:20-42 | one more record keeps every row equal to the row its records determine |
| AdminResultsPage.FirstOfGroupInFold | frontend/src/pages/admin/Results.jsx:24-37 | a group with at least one record has a row |
| AdminResultsPage.FoldRows | frontend/src/pages/admin/Results.jsx:24-41 | each row takes `id`, student and exam from its group's first record, and each field holds the marks of the group's last record for that subject, or 0 |
| AdminResultsPage.GroupCorrect | frontend/src/pages/admin/Results.jsx:17-45 | there is one row per distinct (student, exam) key, in first-seen order, and row `i` is the row its key's records determine |
| AdminResultsPage.GroupRowsDistinct | frontend/src/pages/admin/Results.jsx:20-24 | no two rows have the same student and exam |
| AdminResultsPage.UnknownSubjectOnlySeeds | frontend/src/pages/admin/Results.jsx:22-41 | a record whose subject is none of the seven changes no mark; it adds only its group's zero-seeded row when the group is new |
| AdminResultsPage.LastWriteWins | frontend/src/pages/admin/Results.jsx:39-41 | a later record for an existing group overwrites exactly its subject's field in that group's row; every other row and field is unchanged |
| AdminResultsPage.FilterByExamSpec | frontend/src/pages/admin/Results.jsx:229 | `All` keeps every row; any other value keeps exactly the rows of that exam type, in order |
| AdminResultsPage.MarksPayload | frontend/src/pages/admin/Results.jsx:142-150 | the marks payload has seven entries |
| AdminResultsPage.MarksPayloadAt | frontend/src/pages/admin/Results.jsx:142-150 | entry `i` is the `i`-th subject's upper-case key with that row field's marks |
| AdminResultsPage.MarksPayloadDistinct | frontend/src/pages/admin/Results.jsx:142-150 | no subject key appears twice in the payload |
| AdminResultsPage.MarksPayloadKeySet | frontend/src/pages/admin/Results.jsx:142-150 | the payload keys are exactly the seven subjects the backend requires |
| AdminResultsPage.MarksPayloadRoundTrip | frontend/src/pages/admin/Results.jsx:142-150 | payload key K carries exactly the row field K maps to, so each field is read back under its own key |
| AdminResultsPage.BuildSubmission | frontend/src/pages/admin/Results.jsx:124-161 | a zero or missing student id is refused first, then an unresolved class; an accepted form sends the student id, the class as a string, the exam type and the seven marks, as a PUT to the edit target when there is one and a POST otherwise |
| AdminResultsPage.EditSubmitRoundTrip | frontend/src/pages/admin/Results.jsx:124-201 | editing a row and submitting it sends a PUT to the row's id with the row's student, exam and seven marks |
| AdminResultsPage.ResultsPage.constructor | frontend/src/pages/admin/Results.jsx:48-69 | the screen starts with no rows, no selection, filter `All`, the blank form and no edit target |
| AdminResultsPage.ResultsPage.SelectClass | frontend/src/pages/admin/Results.jsx:333-338 | a chosen class clears the student choice, so the two selectors never both hold a choice |
| AdminResultsPage.ResultsPage.SelectStudent | frontend/src/pages/admin/Results.jsx:349-354 | a chosen student clears the class choice |
| AdminResultsPage.ResultsPage.Request | frontend/src/pages/admin/Results.jsx:87-101 | no request without a selection; a chosen student is asked for by student, otherwise the class by class |
| AdminResultsPage.ResultsPage.FetchResults | frontend/src/pages/admin/Results.jsx:86-109 | with nothing selected the sheet and error are cleared; a response is grouped into the sheet; a failure keeps the sheet and shows the error |
| AdminResultsPage.ResultsPage.ResetForm | frontend/src/pages/admin/Results.jsx:172-186 | the form is blank, there is no edit target and the form is hidden |
| AdminResultsPage.ResultsPage.Edit | frontend/src/pages/admin/Results.jsx:188-202 | the row fills the form, its id becomes the edit target and the form opens |
| AdminResultsPage.ResultsPage.Submit | frontend/src/pages/admin/Results.jsx:119-170 | a refused form sends nothing and shows its message; a sent request that succeeds resets the form with the update or add message and then refetches the current selection, whose outcome regroups the sheet or shows its error; a failed request keeps the form, the sheet and the error text of the failure |
| AdminRoute.ClassifyIntegrity | backend/app/routes/admin.py:62-82 | every integrity error is a 409; "student_id" with "unique", ignoring case, is checked first and answers "Student ID already exists"; then "aadhaar" with "unique" answers "Aadhaar number already exists"; any other message is passed through as is |
| AdminRoute.AddStudent | backend/app/routes/admin.py:36-85 | a missing class is a 409 "Student ID already exists", raised inside the handler and passed on unchanged, and nothing is stored; a saved student carries the submitted fields, the next key and the next free student code, and is appended to the table; a re-raised integrity error is classified and giving up after the retries is the same 409, both leaving the table unchanged |
| AdminRoute.ReRaisedIsNoStudentIdConflict | backend/app/routes/admin.py:66-71 | an error the service re-raises is never a student-id conflict, so it answers "Student ID already exists" only when that is its own raw text |
| AdminRoute.StudentsInClass | backend/app/routes/admin.py:119-139 | a class outside 1..10 is a 400 "Class must be between 1 and 10"; otherwise exactly the students of that class are returned, each as often as in the table, in table order |
| AdminRoute.GetStudent | backend/app/routes/admin.py:97-116 | the returned student has the key; a 404 "Student not found" exactly when no student has it |
| AdminRoute.Remove | backend/app/routes/admin.py:160 | `pop` removes the key and keeps every other entry |
| AdminRoute.RenameClassSpec | backend/app/routes/admin.py:156-160 | after the rename no `class` key is left, `class_` holds what `class` held (or its own value when `class` was not given), and every other key is unchanged |
| AdminRoute.UpdateStudentInfo | backend/app/routes/admin.py:142-170 | an unknown key is a 404 with nothing changed; otherwise the renamed dictionary is applied to that student alone; the key counter never moves |
| AdminRoute.DeleteStudentRecord | backend/app/routes/admin.py:173-193 | a 404 exactly when the key was unknown, with nothing changed; otherwise exactly that student is removed and the others keep their order; the key counter never moves |
| AttendanceRoute.ClassRoster | backend/app/routes/attendance.py:23-44 | a class outside 1..10 is exactly the 400 "Class must be between 1 and 10"; otherwise the roster is one line per student of that class, in table order, and every student of the class has a line |
| AttendanceRoute.RosterIgnoresDate | backend/app/routes/attendance.py:23-42 | the date in the request path does not change the roster |
| AttendanceRoute.ToBatch | backend/app/routes/attendance.py:75-81 | the request entries become the service's entries one to one, in order |
| AttendanceRoute.MarkAttendance | backend/app/routes/attendance.py:47-92 | a class outside 1..10 is a 400 with the table untouched; otherwise the table becomes the bulk result and the reply echoes date and class and copies the success count, the failed count and the failed ids |
| AttendanceRoute.MarkReplyCounts | backend/app/routes/attendance.py:83-92 | the reply's success and failed counts add up to the number of entries, and the failed ids are the unknown students' ids in request order |
| AttendanceService.StudentsOfClass | backend/app/services/attendance.py:12-23 | exactly the students of the class, each as often as in the table, in table order |
| AttendanceService.Upsert | backend/app/services/attendance.py:26-76 | `None` exactly for an unknown student, with the table unchanged; otherwise the returned record has the student, the day and the new status |
| AttendanceService.UpsertStatus | backend/app/services/attendance.py:54-76 | after an upsert the student's day reads the new status and every other (student, day) reads what it read before |
| AttendanceService.UpsertOnePerDay | backend/app/services/attendance.py:54-76 | an upsert never creates a second record for a (student, day) |
| AttendanceService.UpsertKeysBelow | backend/app/services/attendance.py:54-76 | an upsert keeps record ids distinct and below the next id: an update keeps every id and a new record takes the next one |
| AttendanceService.FindIndexSameHits | backend/app/services/attendance.py:54-57 | changing a status does not change where a (student, day) query finds its record |
| AttendanceService.Bulk | backend/app/services/attendance.py:97-115 | the success count plus the number of failed ids is the number of entries |
| AttendanceService.BulkFailed | backend/app/services/attendance.py:100-109 | the failed ids are the ids of the entries naming an unknown student, in batch order, repeats included |
| AttendanceService.BulkFailedStep | backend/app/services/attendance.py:104-109 | one more entry appends its id to the failed ids exactly when its student is unknown |
| AttendanceService.Ids | backend/app/services/attendance.py:101-109 | the ids of the entries, position by position |
| AttendanceService.IdsAppend | backend/app/services/attendance.py:109 | the ids of two batches in a row are the first batch's ids followed by the second's |
| AttendanceService.BulkLastWins | backend/app/services/attendance.py:100-104 | after the batch a known student's day reads the status of that student's last entry; every other (student, day) is unchanged |
| AttendanceService.BulkOnePerDay | backend/app/services/attendance.py:79-115 | the batch keeps at most one record per (student, day) |
| AttendanceService.AttendanceTable.constructor | backend/app/models/attendance.py:11-18 | the table starts empty, with keys counted from 1 |
| AttendanceService.AttendanceTable.MarkAttendance | backend/app/services/attendance.py:26-76 | an unknown student gives `None` with the table unchanged; an existing record of that day changes its status only, its class kept; otherwise a record with the given student, class, day and status is appended under the next key |
| AttendanceService.AttendanceTable.MarkAttendanceBulk | backend/app/services/attendance.py:79-115 | the loop leaves the table, the success count and the failed ids that the bulk definition gives, and the two counts add up to the number of entries |
| CorsOrigins.Kept | backend/app/main.py:84-88 | no more origins than pieces |
| CorsOrigins.KeptIsStripThenFilter | backend/app/main.py:84-88 | the origins are the stripped pieces with the empty ones dropped, in the order of the pieces |
| CorsOrigins.KeptCons | backend/app/main.py:85-87 | the first piece contributes its stripped form exactly when that is not empty, ahead of the rest |
| CorsOrigins.KeptComplete | backend/app/main.py:84-88 | every piece that is not blank once stripped is an origin, stripped |
| CorsOrigins.KeptSound | backend/app/main.py:84-88 | every origin is non-empty and the stripped form of some piece |
| CorsOrigins.StripKeepsOut | backend/app/main.py:85 | stripping adds no character, so no origin holds a comma |
| CorsOrigins.Origins | backend/app/main.py:84-88 | no origin is empty, holds whitespace at either end or holds a comma |
| CorsOrigins.StrippedFixed | backend/app/main.py:85 | stripping an already stripped origin changes nothing |
| CorsOrigins.KeptAll | backend/app/main.py:84-88 | pieces already clean all come back, in order |
| CorsOrigins.OriginsOfJoin | backend/app/main.py:84-88 | a list of clean origins written with commas is read back as exactly that list |
| CorsOrigins.SplitAroundBlank | backend/app/main.py:86 | the text between two commas is a piece of its own |
| CorsOrigins.BlankStrips | backend/app/main.py:87 | a blank piece strips to nothing |
| CorsOrigins.BlankPieceDropped | backend/app/main.py:87 | a blank piece between two origins is dropped and the two origins are kept in order |
| CorsOrigins.EmptySetting | backend/app/main.py:84-88 | an empty setting allows no origin |
| CorsOrigins.CleanOrigin | backend/app/core/config.py:16-23 | each default origin starts with `h`, ends with a digit and holds no comma, so it is clean |
| CorsOrigins.JoinSix | backend/app/core/config.py:16-23 | the default setting is the six default origins with a comma between each two |
| CorsOrigins.DefaultOrigins | backend/app/main.py:84-88 | the default setting yields exactly the six development origins, in order |
| DatabaseUrl.EngineUrl | backend/app/core/database.py:9-11 | a URL starting with `postgres://` gets `postgresql://` followed by the rest unchanged; any other URL is used as it is |
| DatabaseUrl.NoOldScheme | backend/app/core/database.py:10-11 | the engine URL never starts with `postgres://` |
| DatabaseUrl.NewSchemeUnchanged | backend/app/core/database.py:10 | a `postgresql://` URL is left alone |
| DatabaseUrl.Idempotent | backend/app/core/database.py:10-11 | rewriting twice is rewriting once |
| DatabaseUrl.RestKept | backend/app/core/database.py:11 | only the scheme changes: later `postgres://` text in the URL is kept |
| DatabaseUrl.ContainsSomewhere | backend/app/core/database.py:11 | a contained text occurs at some position |
| HomePage.Latest | frontend/src/pages/public/Home.jsx:55-57 | the strip has three notices, or all of them when fewer came; each is from the response; they are newest first; no notice left out is newer than one kept |
| HomePage.LatestFacts | frontend/src/pages/public/Home.jsx:55-57 | the first three of the newest-first copy come from the response, newest first, and nothing left out is newer |
| HomePage.LeftOutIsOlder | frontend/src/pages/public/Home.jsx:56-57 | in a newest-first list, anything after the first few is no newer than each of them |
| HomePage.AfterFetch | frontend/src/pages/public/Home.jsx:49-61 | a failed fetch leaves the strip as it was; a successful one shows the latest three |
| HomePage.FailedFirstFetch | frontend/src/pages/public/Home.jsx:49-61 | the strip starts empty, so a failed first fetch shows no notices |
| NoticesPage.NewestFirst | frontend/src/pages/public/Notices.jsx:17 | the list is a permutation of the response, newest upload first, and notices uploaded at the same moment keep their response order |
| NoticesPage.Fetch | frontend/src/pages/public/Notices.jsx:12-24 | a failed fetch keeps the empty list and shows "Unable to load notices at the moment."; a successful one holds the newest-first copy and no error |
| NoticesPage.Categories | frontend/src/pages/public/Notices.jsx:29 | `ALL` first, then each notice's category exactly once, and only categories some notice has |
| NoticesPage.CategoriesOrder | frontend/src/pages/public/Notices.jsx:29 | after `ALL` the categories come in the order of their first notices |
| NoticesPage.Filtered | frontend/src/pages/public/Notices.jsx:30 | `ALL` shows every notice; any other category keeps exactly the notices of that category, each as often as in the list, in order |
| NoticesPage.FilteredNewestFirst | frontend/src/pages/public/Notices.jsx:17-30 | whatever is selected, the notices shown stay newest first |
| StudentResultsPage.Filtered | frontend/src/pages/student/Results.jsx:26-28 | no filter shows every result; a filter keeps exactly the results of that exam type, each as often as in the list, in order |
| StudentResultsPage.ExamTypesOf | frontend/src/pages/student/Results.jsx:30 | the exam type of each result, position by position |
| StudentResultsPage.ExamTypes | frontend/src/pages/student/Results.jsx:30 | each result's exam type is offered, once, and only exam types some result has |
| StudentResultsPage.ExamTypesOrder | frontend/src/pages/student/Results.jsx:30 | the exam types come in the order of their first results |
| StudentResultsPage.OfferedExamNonEmpty | frontend/src/pages/student/Results.jsx:26-30 | choosing an offered exam type never shows an empty table |
| StudentResultsPage.MarksBand | frontend/src/pages/student/Results.jsx:96-98 | green exactly from 80, yellow exactly from 60 below 80, red exactly below 60 |
| StudentResultsPage.BandMonotone | frontend/src/pages/student/Results.jsx:96-98 | a higher mark never gets a worse band |
| StudentResultsPage.EmptyOnlyUnderFilter | frontend/src/pages/student/Results.jsx:84-87 | with results present an empty table means a filter matching none of them, and it says "No results for selected exam type" |
| StudentAttendancePage.CountsOf | frontend/src/pages/student/Attendance.jsx:25-27 | present counts the PRESENT records, absent the ABSENT ones, total all records; the two counts plus the records of any other status make up the total |
| StudentAttendancePage.NoRecords | frontend/src/pages/student/Attendance.jsx:25-72 | no records give three zero counts and the "No attendance records found" row |
| StudentAttendancePage.HolidayCountsInNeither | frontend/src/pages/student/Attendance.jsx:25-27 | a holiday raises the total and neither count |
| StudentAttendancePage.EmptyRow | frontend/src/pages/student/Attendance.jsx:68-72 | the empty row is shown exactly when there are no records |
| StudentAttendancePage.StatusBadge | frontend/src/pages/student/Attendance.jsx:80-83 | green exactly for PRESENT, red exactly for ABSENT, gray for any other status |
| StudentAttendancePage.BadgesMatchCounts | frontend/src/pages/student/Attendance.jsx:25-83 | every green badge is a counted present record and every red badge a counted absent one |
| StudentPdfsPage.Categories | frontend/src/pages/student/Pdfs.jsx:27 | each document's category is offered, once, and only categories some document has |
| StudentPdfsPage.CategoriesOrder | frontend/src/pages/student/Pdfs.jsx:27 | the categories come in the order of their first documents |
| StudentPdfsPage.Filtered | frontend/src/pages/student/Pdfs.jsx:28-30 | no selection shows every document; a selection keeps exactly that category's documents, each as often as in the list, as a subsequence in order |
| StudentPdfsPage.OfferedCategoryNonEmpty | frontend/src/pages/student/Pdfs.jsx:27-30 | picking an offered category lists at least one document |
| StudentPdfsPage.EmptyOnlyUnderSelection | frontend/src/pages/student/Pdfs.jsx:79 | with documents present an empty list means a selection matching none of them, and it says "No documents in selected category" |
| StudentsService.ExtractRoll | backend/app/services/students.py:10-21 | a roll is read exactly when the code starts with `STU{class}` and the rest is a non-empty run of digits, and it is the value of that rest |
| StudentsService.ExtractFormat | backend/app/services/students.py:10-46 | reading the roll back from `STU{class}{roll:03d}` gives the roll, for every roll |
| StudentsService.FormatInjective | backend/app/services/students.py:46 | within a class two codes are equal exactly when their rolls are |
| StudentsService.MaxRollIsMax | backend/app/services/students.py:36-40 | the largest parsed roll bounds every roll parsed from the class, and is one of them unless it is 0 |
| StudentsService.TakenBelowMax | backend/app/services/students.py:36-54 | a taken code of the class has a roll no larger than the class maximum, which bounds the advancing loop |
| StudentsService.FreeFrom | backend/app/services/students.py:45-54 | the loop stops at the first roll from its start whose code is not taken: every roll before it is taken |
| StudentsService.StudentIds | backend/app/services/students.py:32-49 | the codes of the students, position by position |
| StudentsService.NextIdSpec | backend/app/services/students.py:24-54 | the generated code is held by no student, its roll is above every roll parsed from the class, and every roll between the class maximum and it is taken |
| StudentsService.NextIdRoll | backend/app/services/students.py:42-46 | the generated code reads back as the roll the loops settled on |
| StudentsService.NextIdAboveClass | backend/app/services/students.py:36-42 | every roll parsed from the class is at most the maximum the numbering starts above |
| StudentsService.NextIdEmptyClass | backend/app/services/students.py:36-42 | a class with no students starts numbering at roll 1 |
| StudentsService.LargestRoll | backend/app/services/students.py:36-40 | the first loop returns the largest parsed roll of the class, or 0 |
| StudentsService.FirstFree | backend/app/services/students.py:42-54 | the second loop returns the first free roll from its start |
| StudentsService.SettledRoll | backend/app/services/students.py:24-54 | the two loops together produce the generated code, which no student holds |
| StudentsService.StudentStore.NextStudentId | backend/app/services/students.py:24-54 | the code read from the table is the generated code and no student holds it |
| StudentsService.RetriesSpec | backend/app/services/students.py:79-95 | at most five attempts; a save happens only after student-id conflicts; a re-raised error is the first error that is not such a conflict; giving up means five conflicts in a row |
| StudentsService.SetField | backend/app/services/students.py:161-163 | assigning one column changes that column to the value, when the value fits it, and no other column or key |
| StudentsService.ApplyUpdates | backend/app/services/students.py:161-163 | the update never changes the primary key |
| StudentsService.ApplyUpdatesSpec | backend/app/services/students.py:155-167 | after the update each column holds the last non-`None` value given for it, and a column given no such value is unchanged |
| StudentsService.AppendStudent | backend/app/services/students.py:84-88 | a row keyed by the next sequence value keeps keys distinct, and a fresh code keeps codes distinct |
| StudentsService.StudentStore.constructor | backend/app/models/student.py:11-25 | the table starts empty, with keys counted from 1 |
| StudentsService.StudentStore.CreateStudent | backend/app/services/students.py:63-95 | a missing class yields `None` and changes nothing; a save appends the row under the next key with the generated code; a re-raised error or five conflicts leave the table unchanged; codes stay distinct |
| StudentsService.StudentStore.Attempts | backend/app/services/students.py:79-95 | the retry loop ends as the retry definition says, and every attempt generates the same code because a rolled-back attempt leaves the table as it was |
| StudentsService.StudentStore.UpdateStudent | backend/app/services/students.py:139-167 | an unknown key yields `None` with nothing changed; otherwise that student alone is replaced by the updated one |
| StudentsService.StudentStore.DeleteStudent | backend/app/services/students.py:170-188 | true exactly when the student existed; otherwise nothing changes; afterwards no student has the key |
| ResultsService.NewRows | backend/app/services/results.py:43-66 | the loop creates at most one row per entry |
| ResultsService.Visit | backend/app/services/results.py:44-66 | one iteration adds at most one row |
| ResultsService.NewRowsStep | backend/app/services/results.py:43-66 | the loop over one more entry is the loop so far followed by one iteration on that entry |
| ResultsService.NewRowsErrorStays | backend/app/services/results.py:42-77 | once a subject name fails to parse, the later entries do not change the outcome: the batch ends in that error |
| ResultsService.Numbered | backend/app/services/results.py:58-66 | one created row per fresh entry |
| ResultsService.FreshEntries | backend/app/services/results.py:47-56 | the entries that are inserted all have a valid subject, and there are no more of them than entries |
| ResultsService.FreshEntriesFilter | backend/app/services/results.py:47-56 | the inserted entries are exactly the entries whose subject is valid and not yet recorded for this student, class and exam, in input order |
| ResultsService.FreshEntriesAppend | backend/app/services/results.py:47-56 | an entry added at the end is inserted exactly when it is fresh |
| ResultsService.NumberedAppend | backend/app/services/results.py:58-66 | numbering one more fresh entry appends one row with the next id |
| ResultsService.VisitValid | backend/app/services/results.py:47-66 | an iteration on a valid subject skips it when a committed row has that slot and otherwise appends its row under the next id |
| ResultsService.VisitNumbered | backend/app/services/results.py:47-66 | an iteration on the rows made from the fresh entries so far gives the rows made from the fresh entries one further |
| ResultsService.ExpectedStepValid | backend/app/services/results.py:47-66 | the loop-free outcome of a valid prefix extended by a valid entry skips a recorded subject and appends a new one |
| ResultsService.ExpectedStep | backend/app/services/results.py:43-77 | the loop-free outcome follows one iteration of the loop, error entries included |
| ResultsService.ExpectedOk | backend/app/services/results.py:43-66 | with every subject name valid the outcome is the numbered fresh entries |
| ResultsService.NewRowsSpec | backend/app/services/results.py:43-77 | the loop yields exactly the error of the first unknown subject name, or one row per valid and unrecorded entry, in input order, numbered consecutively |
| ResultsService.NewRowsNoDuplicates | backend/app/services/results.py:47-66 | every created row carries this student, class and exam, has the next consecutive id, and fills a slot that had no committed row |
| ResultsService.ClassResultsSpec | backend/app/services/results.py:110-127 | exactly the class's rows are returned; the exam filter applies only to a non-empty exam name, so `None` and `""` both mean every exam |
| ResultsService.ResultTable.constructor | backend/app/models/result.py:11-20 | the table starts empty, with ids counted from 1 |
| ResultsService.ResultTable.CreateResult | backend/app/services/results.py:10-77 | without a class and without the student nothing changes and the reply is `None`; an unknown subject or a failed commit raises and leaves the table unchanged; otherwise exactly the planned rows are appended and returned |
| ResultsService.ResultTable.Plan | backend/app/services/results.py:40-66 | the loop reads the table and computes the planned rows or the error |
| ResultsService.ResultTable.VisitEntry | backend/app/services/results.py:44-66 | one pass of the loop computes one iteration of the loop definition |
| ResultsService.ResultTable.UpdateResult | backend/app/services/results.py:130-154 | an unknown id gives `None` and changes nothing; otherwise only the marks of that row change |
| ResultsService.ResultTable.DeleteResult | backend/app/services/results.py:157-175 | true exactly when the row existed; then exactly that row is gone and the rest keep their order |
| ResultsRoute.Collect | backend/app/routes/results.py:75-90 | the normalized dictionary holds each key once |
| ResultsRoute.CollectLookup | backend/app/routes/results.py:75-90 | each normalized key holds the value of the last entry that uppercases to it |
| ResultsRoute.CollectKeys | backend/app/routes/results.py:68-90 | the normalized keys are exactly the uppercased incoming keys |
| ResultsRoute.CollectRange | backend/app/routes/results.py:84-90 | values in range stay in range once normalized |
| ResultsRoute.IncomingKeysLast | backend/app/routes/results.py:68 | the uppercased key set grows by the last entry's key |
| ResultsRoute.CollectStep | backend/app/routes/results.py:76-90 | one iteration stores the entry under its uppercased key and, past a good entry, no bad entry has been met |
| ResultsRoute.FirstBad | backend/app/routes/results.py:78-88 | the loop stops at the first entry with an unknown subject or marks outside 0..100 |
| ResultsRoute.NormalizeMarks | backend/app/routes/results.py:75-90 | the loop gives the 400 of the first bad entry (unknown subject before range), or the normalized dictionary |
| ResultsRoute.NormalizeOk | backend/app/routes/results.py:68-90 | a successful normalization has each uppercased key once, holding the last value given for it, all within 0..100 |
| ResultsRoute.CheckedSubjectsAreKnown | backend/app/routes/results.py:58-90 | after the exact-subject-set check the "Invalid subject" reply is unreachable and only the range error remains |
| ResultsRoute.Validate | backend/app/routes/results.py:50-107 | a class outside 1..10 and a wrong subject set are the first two 400s; a normalization error is passed on unchanged; an unknown student is the 404 "Student with ID {id} not found"; a found student of the requested class gives the normalized marks and that student; every error is a 400 or a 404, and success means every check passed |
| ResultsRoute.ValidateClassMatches | backend/app/routes/results.py:103-107 | with the request class printed as its number (Python 3.11 or later), comparing the classes as decimal texts is comparing them as numbers: success means equal classes, and a different stored class is "Student class mismatch" |
| ResultsRoute.ValidateHandsOverSubjects | backend/app/routes/results.py:58-116 | a validated request hands over exactly the seven subjects, each once, each in range and each a valid subject name |
| ResultsRoute.ValidatedInsertionSucceeds | backend/app/routes/results.py:109-116 | after validation the insertion cannot fail on a subject name |
| ResultsRoute.AddResult | backend/app/routes/results.py:29-136 | a failed check writes nothing; a failed save is a 500 with the error text in development and a fixed text otherwise, with nothing written; otherwise the planned rows are written and the reply counts them |
| ResultsRoute.ClassResultsList | backend/app/routes/results.py:176-197 | a class outside 1..10 is exactly the 400; otherwise the reply is the class query, so by `ResultsService.ClassResultsSpec` it holds exactly the class's rows, filtered by exam only for a non-empty exam name |
| ResultsRoute.GetResultRecord | backend/app/routes/results.py:139-158 | the row with that id, or a 404 exactly when no row has it |
| ResultsRoute.UpdateResultMarks | backend/app/routes/results.py:200-220 | an unknown id is a 404 with nothing changed; otherwise only that row's marks change; the id counter never moves |
| ResultsRoute.DeleteResultRecord | backend/app/routes/results.py:223-242 | a 404 exactly when no row had the id, with nothing changed; otherwise exactly that row is removed and the others keep their order; the id counter never moves |

## Left out

- Text.Upper, Text.Lower: case mapping covers ASCII letters only, and `isdigit` accepts ASCII digits only, so Unicode case mapping and Unicode digits are not modelled.
- Marks and counts are integers and fee amounts are `real`. Floating-point rounding, `Number()`, `parseFloat` and `NaN` beyond the explicit "not a number" input cases are not modelled.
- An upload time is an integer timestamp. `datetime.utcnow`, `date.today`, `toLocaleDateString` and `toLocaleString` are not modelled.
- Queries without an explicit order return rows in table order. The `order_by` clauses of `get_class_results`, `get_student_results` and the listing queries are not modelled. SQL returns no particular order without them.
- Sessions, `commit`, `refresh`, `rollback` and `with_for_update` are not modelled. A failed commit is a parameter, and a rolled-back batch leaves its table as it was. Concurrent requests, and the race the student-code retry protects against, are not modelled.
- File writes, `mkdir`, file deletion and the `FileResponse` download route (backend/app/routes/pdfs.py:124-138) are not modelled. A failed write or unlink is a parameter. The UUID of an upload is an opaque string parameter.
- `get_all_pdfs`, `get_public_pdfs`, `get_all_students`, `get_attendance`, `get_student_results` and their list routes are plain queries with no transformation. The student attendance history (backend/app/routes/attendance.py:95-109, backend/app/services/attendance.py:140-156) is not modelled either.
- Deleting a student also deletes that student's attendance, fees and results through the relationship cascade (backend/app/models/student.py:28-30). The model deletes the student row only.
- Request-schema checks (Pydantic) run before a route's own checks. The model takes their bounds as given: class 1..10 for `ResultCreate.student_class`, 0..100 for `ResultUpdate.marks`, integer marks. So a malformed body that would fail with 422 is not modelled.
- ResultsRoute.AddResult: the branch where `create_result` returns `None` cannot be taken, because the route always passes the stored class. The model keeps that branch. The contract states that the planned insertion succeeds and does not mention the branch.
- ResultsRoute.NormalizeMarks: once the exact subject set has been checked, the "Invalid subject" reply cannot occur. The loop still models it, and `ResultsRoute.CheckedSubjectsAreKnown` proves it unreachable.
- FeesRoute.AddFee: the "Student not found" 404 is never returned. `create_fee` does no student lookup and always returns the new row. A student id that does not exist would fail at the foreign key on commit, and that failure is not modelled.
- AttendanceRoute.MarkAttendance: the route's range check is modelled as written. The request schema already bounds the class to 1..10, so a request reaching the route cannot fail it. The 422 that schema gives first is not modelled.
- AdminRoute.RenameClassSpec: the `class` to `class_` rename is modelled on the dictionary as written. With `model_dump(by_alias=False)` the key is already `class_`, so the rename does not fire in practice.
- StudentsService.SetField: a key that is not an updatable column changes no column, and neither does a value of the wrong kind for its column. The update dictionary comes from the request schema, so such keys do not arise. SQLAlchemy's type coercion is not modelled.
- A commit failure in `update_student`, `update_fee`, `update_pdf` and `update_result` is not modelled. The update is taken to succeed.
- AdminRoute.AddStudent: every failed save is treated as an integrity error. The branch for any other exception is not modelled. That branch answers 500, with the error text in development and "Internal server error" otherwise.
- ResultsRoute.ValidateClassMatches: the model takes `str` of the request's class to be its decimal number, which holds from Python 3.11 on. Before 3.11, `str` of a `ClassEnum` member gives `ClassEnum.CLASS_n`, and every request would get "Student class mismatch". The source pins no Python version. ResultsRoute.Validate rests on the same assumption.
- ErrorMessage.Extract: an item's `msg` is `null`, missing or a string. A truthy `msg` that is not a string, such as a number or an object, is not modelled.
- The frontend's edit of a result sends the seven-key payload as a PUT, but the backend's `PUT /admin/results/{id}` expects `{marks}`. Each side is modelled as written, and the mismatch is not modelled as a finding.
- `Object.entries` order: JavaScript lists integer-like keys in ascending order. The attendance selection is keyed by numeric student ids, so the model keeps its keys sorted. The rule for non-numeric keys is not modelled.
- JavaScript arrays and Python lists are values here. That a copied response is not reordered by sorting (frontend/src/pages/public/Home.jsx:55) holds by construction and is not stated separately.
- The admin fees page's `handleSubmit`, which parses the form's amounts with `parseFloat`, is not modelled. `fetchStudentsForDropdown` on the admin results page is a plain fetch.
- Engine and session creation, the CORS middleware itself and `CORS_ALLOW_ORIGIN_REGEX` are library configuration. Only the URL rewrite and the origins list built from the setting are modelled.
- AdminResultsPage.ResultsPage.SelectClass: Results.jsx:82-84 refetches whenever either selector changes; here the selector only updates the choices and leaves the sheet as it was, and the refetch is the separate step AdminResultsPage.ResultsPage.FetchResults. AdminResultsPage.ResultsPage.SelectStudent is modelled the same way.
- ResultsService.InvalidSubjectMessage: the key is always put in single quotes unchanged; Python's `repr` would switch to double quotes or escape characters for a key holding a quote, a backslash or an unprintable character. The route's subject-set check rejects every unknown key first, so the message is never sent.
- PdfsRoute.Extension: the stored extension is stated as a suffix after a `.` with no `.` in it, and not as an index into the filename.
- The React markup, routing, authentication (bcrypt, JWT), startup schema fixes and logging are not part of this model.
