# School examination backend: verified model of its core rules

This project is a Dafny model of the core of a multi-tenant school examination
backend. It covers:

- the two parsers that turn the text of an objective-question document into
  questions with options A–E, a correct letter and warnings;
- the three student roll-number generators;
- student creation and its checks;
- exam validation, exam codes, resit creation, paginated exam listing and
  exam status changes;
- the result-access-code counter;
- student approval and rejection;
- department creation, update and the admission-number format.

Each handler is modelled in the form the source gives it:

- A pure computation is a Dafny function, with lemmas about it.
- A loop that builds its output step by step is a method with loop invariants.
  Each such method is proved equal to a specification function.
- A handler that updates a table the model keeps is a method of a class. The
  class fields are the stored tables, here `map`s or `seq`s, and each method's
  `ensures` states the whole new state.
- `createStudent` and `createExam` only insert one row. They are functions that
  return the row they insert, or the error.

Database lookups are parameters or class fields. So are the clock's year,
random numbers and the fresh ids the database assigns.

Modules, one per file:

| module | file | models |
|---|---|---|
| `Text` | text.dfy | the JavaScript string built-ins used: `trim`, `split`, `padStart`, `parseInt`, `String(n)`; the regex character classes `\s` and `\d`; and JavaScript truthiness of optional strings and numbers |
| `ObjPlainText`, `ObjPlainTextProps` | obj_plain_text.dfy, obj_plain_text_props.dfy | `parseObjPlainText` (src/utils/parseObjDocx.ts) |
| `ObjImport`, `ObjImportProps` | obj_import.dfy, obj_import_props.dfy | the line scanner of `parseObjectiveFile` (src/controllers/objImport.controller.ts) |
| `RollNumber` | roll_number.dfy | `generateSequentialRollNumber` (src/utils/rollNumber.ts) |
| `Roll` | roll.dfy | `generateRollNumber` (src/utils/roll.ts) |
| `StudentController` | student_controller.dfy | `generateRollNumber` and `createStudent` (src/controllers/studentController.ts) |
| `ExamUtils` | exam_utils.dfy | `validateExamData` and `generateExamCode` (src/modules/exam/examUtils.ts) |
| `ExamService` | exam_service.dfy | `createExam`, `getExams`, `approveExam` and `updateExamStatus` (src/modules/exam/examService.ts) |
| `ResultsController` | results_controller.dfy | `getStudentResult` (src/controllers/resultsController.ts) |
| `ApprovalController` | approval_controller.dfy | `approveStudent` and `rejectStudent` (src/controllers/approvalController.ts) |
| `DepartmentController` | department_controller.dfy | `createDepartment`, `updateDepartment` and `setAdmissionFormat` (src/controllers/departmentController.ts) |

Conventions:

- A JavaScript `undefined` request field is `None`.
- JavaScript truthiness is explicit:
  - a string is truthy when present and non-empty;
  - a number is truthy when present and non-zero.
- NaN is `None` in an `Option<int>`.

## Model

| member | source | states |
|---|---|---|
| Text.TrimSpec | src/utils/parseObjDocx.ts:24 | `trim()` returns the text between a leading and a trailing run of whitespace; the result starts and ends with no whitespace, and it is empty exactly when the text is all whitespace |
| Text.FirstSegment | src/controllers/departmentController.ts:149 | `split(sep)[0]` holds no separator, is a prefix of the text, and is followed by the separator when it is shorter than the text |
| Text.LastSegment | src/controllers/studentController.ts:16 | `split(sep).pop()` holds no separator, is a suffix of the text, and is preceded by the separator when it is shorter than the text |
| Text.Dec | src/utils/roll.ts:22 | `String(n)` is a non-empty digit string whose decimal value is `n`, with no leading zero unless `n` is 0 |
| Text.DecBounds | src/utils/roll.ts:22 | `String(n)` of a positive `n` has `k` digits exactly when `10^(k-1) <= n < 10^k` |
| Text.PadStart | src/utils/rollNumber.ts:25 | `padStart(width, fill)` ends with the original text, is filled in front, and has length `max(width, length)` |
| Text.ParseInt | src/controllers/studentController.ts:16 | `parseInt(s, 10)` is NaN exactly when no digit follows the leading whitespace and optional sign |
| Text.ParseIntOfSignedRun | src/controllers/studentController.ts:16 | `parseInt(s, 10)` skips leading whitespace, takes an optional `+` or `-`, reads the whole digit run and ignores any text after it; the value is the run's decimal value, negated after `-` |
| ObjPlainText.Scanner.constructor | src/utils/parseObjDocx.ts:27-32 | the accumulators start empty |
| ObjPlainText.Scanner.FlushQuestion | src/utils/parseObjDocx.ts:39-97 | `flushQuestion` changes the accumulators exactly as the specification `Flush` does |
| ObjPlainText.Scanner.Consume | src/utils/parseObjDocx.ts:100-145 | one iteration of the `for` loop changes the accumulators exactly as `Step` does |
| ObjPlainText.ParseObjPlainText | src/utils/parseObjDocx.ts:19-158 | the imperative parser returns `Parse(text)`: the loop invariant ties the scanner state to the scan of the lines consumed so far |
| ObjPlainText.UpperOptionLetter | src/utils/parseObjDocx.ts:105-115 | upper-casing a letter the answer or option pattern accepts gives one of A–E |
| ObjPlainText.UpperOfAnswerLetter | src/utils/parseObjDocx.ts:56-58 | upper-casing a recorded answer letter changes nothing, so it is stored as `correct` as it is |
| ObjPlainText.RestCaptureSpec | src/utils/parseObjDocx.ts:35-37 | the `\s*(.+)$` capture is the greedy one: the tail after the longest whitespace run that leaves a non-empty tail without line terminators; it fails exactly when no split works |
| ObjPlainText.AnswerMatch | src/utils/parseObjDocx.ts:36 | a line the answer pattern accepts starts with `ans` in either case, and the captured letter is in `[A-Ea-e]` |
| ObjPlainText.OptionMatch | src/utils/parseObjDocx.ts:35 | a line the option pattern accepts gives a letter in `[A-Ea-e]` and a non-empty text at least two characters shorter than the line |
| ObjPlainText.NumberMatch | src/utils/parseObjDocx.ts:37 | a line the question-number pattern accepts gives a non-empty text at least two characters shorter than the line |
| ObjPlainText.Parse | src/utils/parseObjDocx.ts:148-157 | when no question was found, the last warning is the "No questions were detected" warning |
| ObjPlainText.FlushOfPending | src/utils/parseObjDocx.ts:45-96 | a flush with something pending appends one question and its warnings and clears the question in progress |
| ObjPlainTextProps.BlankTextHasNoLines | src/utils/parseObjDocx.ts:21-25 | whitespace-only input has no lines to scan |
| ObjPlainTextProps.WhitespaceOnlyText | src/utils/parseObjDocx.ts:149-155 | whitespace-only input gives no question and exactly the "No questions were detected" warning |
| ObjPlainTextProps.FlushAppends | src/utils/parseObjDocx.ts:45-91 | what a flush appends: the question with options read at A–E and the answer, no-options and note warnings in source order |
| ObjPlainTextProps.EmittedOptionText | src/utils/parseObjDocx.ts:47-51 | each option slot of an emitted question is the options map read at its letter, or empty |
| ObjPlainTextProps.AddedDescribes | src/utils/parseObjDocx.ts:55-91 | the warnings a flush adds are true of the question it emits, and every true one is added |
| ObjPlainTextProps.AppendCorrect | src/utils/parseObjDocx.ts:53-58 | appending a question whose `correct` is A–E or empty keeps every `correct` valid |
| ObjPlainTextProps.FlushValid | src/utils/parseObjDocx.ts:39-97 | a flush keeps the invariant that the warnings describe the questions exactly |
| ObjPlainTextProps.AnswerMatchLetter | src/utils/parseObjDocx.ts:36 | the answer pattern captures a letter from `[A-Ea-e]` |
| ObjPlainTextProps.OptionMatchLetter | src/utils/parseObjDocx.ts:35 | the option pattern captures a letter from `[A-Ea-e]` |
| ObjPlainTextProps.StepValid | src/utils/parseObjDocx.ts:99-146 | one loop iteration keeps the invariant |
| ObjPlainTextProps.ScanValid | src/utils/parseObjDocx.ts:99-146 | throughout the loop the warnings describe the questions, and every question so far was closed by a numbered line |
| ObjPlainTextProps.RestCaptureSuffix | src/utils/parseObjDocx.ts:35-37 | a `\s*(.+)$` capture is non-empty and ends with the last character of the text it was matched against |
| ObjPlainTextProps.NumberMatchSuffix | src/utils/parseObjDocx.ts:37 | the text after a question number is non-empty and runs to the end of the line |
| ObjPlainTextProps.OptionStepPending | src/utils/parseObjDocx.ts:111-121 | an option line records its text under one of A–E, so the options map is no longer empty |
| ObjPlainTextProps.NumberStepPending | src/utils/parseObjDocx.ts:126-135 | a numbered line starts a question whose text is not blank |
| ObjPlainTextProps.StepPending | src/utils/parseObjDocx.ts:99-146 | after any non-empty trimmed line some question is in progress |
| ObjPlainTextProps.OptionLineSets | src/utils/parseObjDocx.ts:111-122 | an option line records its trimmed text under its upper-cased letter, replacing earlier text for that letter; nothing else changes |
| ObjPlainTextProps.AnswerLineSets | src/utils/parseObjDocx.ts:103-108 | an answer line sets the answer to its upper-cased letter whatever was held before; nothing else changes |
| ObjPlainTextProps.PlainLineExtendsStem | src/utils/parseObjDocx.ts:141-145 | a line matching no pattern starts the stem or is appended to it with one space; nothing else changes |
| ObjPlainTextProps.StepQuestions | src/utils/parseObjDocx.ts:128-132 | a step emits one question exactly when a numbered line meets a question in progress, and none otherwise |
| ObjPlainTextProps.ScanCount | src/utils/parseObjDocx.ts:99-146 | over trimmed non-empty lines the loop closes one question per numbered line after the first line, and leaves a question in progress |
| ObjPlainTextProps.LinesTrimmed | src/utils/parseObjDocx.ts:21-25 | the lines the parser scans are non-empty and trimmed |
| ObjPlainTextProps.QuestionCount | src/utils/parseObjDocx.ts:99-155 | the number of questions is one per numbered line after the first line, plus the one the final flush closes, and 0 for text without lines |
| ObjPlainTextProps.ParseDescribed | src/utils/parseObjDocx.ts:19-158 | every `correct` is A–E or empty, and the warnings describe the questions exactly; with no questions there is the single "no questions" warning |
| ObjPlainTextProps.NoAnswerLineReported | src/utils/parseObjDocx.ts:69-71 | question n is reported as lacking an answer line exactly when its `correct` is empty |
| ObjPlainTextProps.NoOptionsReported | src/utils/parseObjDocx.ts:73-77 | question n is reported as having no options exactly when all five option texts are empty |
| ObjPlainTextProps.AnswerWithoutOptionReported | src/utils/parseObjDocx.ts:59-63 | question n is reported as answered with a missing option exactly when its answer letter has no option text |
| ObjPlainTextProps.NotesReported | src/utils/parseObjDocx.ts:89-91 | every question but the last, and no other, carries the "next numbered question" note |
| ObjPlainTextProps.WarningKinds | src/utils/parseObjDocx.ts:64-155 | the "not A–E" warnings never occur; "no questions" occurs exactly when nothing was parsed |
| ObjImport.SeparatorRunEnd | src/controllers/objImport.controller.ts:36 | the greedy run of `[\).\s-]` characters after the letter ends within the line, at or after its start |
| ObjImport.OptionLineMatch | src/controllers/objImport.controller.ts:36 | a line the option pattern accepts gives its first character as the letter, which is in A–E of either case, and a captured text without line terminators |
| ObjImport.AnswerLineMatch | src/controllers/objImport.controller.ts:37 | a line the answer pattern accepts has at least seven characters, starts with `a` or `A`, and gives a letter in A–E of either case |
| ObjImport.IsQuestionStart | src/controllers/objImport.controller.ts:48-58 | a line that looks like a question is non-empty and is never the last line |
| ObjImport.CollectFrom | src/controllers/objImport.controller.ts:63-160 | the outer loop only appends questions, at most one per two lines it passes |
| ObjImport.Import | src/controllers/objImport.controller.ts:24-160 | every question takes at least two lines of the text, a stem and an option |
| ObjImport.LooksLikeQuestion | src/controllers/objImport.controller.ts:48-58 | the look-ahead loop returns true exactly when the line is neither an option nor an answer line and an option line follows within six lines |
| ObjImport.StemScan | src/controllers/objImport.controller.ts:75-88 | the stem loop as written ends within the lines, at or after its start; it stops at an option line, an answer line or a question start |
| ObjImport.ReadOptions | src/controllers/objImport.controller.ts:100-134 | the options loop ends within the lines, at or after its start; it stops at the first line that is neither option nor answer |
| ObjImport.ReadStem | src/controllers/objImport.controller.ts:72-88 | the imperative stem loop returns what `StemScan` computes |
| ObjImport.ReadOptionLines | src/controllers/objImport.controller.ts:91-134 | the imperative options loop returns what `ReadOptions` computes |
| ObjImport.ParseObjectiveFile | src/controllers/objImport.controller.ts:24-160 | the imperative scan returns `Import(rawText)`, the collection over the lines that look like questions |
| ObjImportProps.ImportLinesNonEmpty | src/controllers/objImport.controller.ts:27-30 | every scanned line is non-empty and trimmed, so the empty-line guards never fire |
| ObjImportProps.DeleteCrRemoves | src/controllers/objImport.controller.ts:24 | `replace(/\r/g, "")` leaves no `\r`, never grows the text, leaves text without `\r` unchanged, and deletes a lone `\r` |
| ObjImportProps.DeleteCrAppend | src/controllers/objImport.controller.ts:24 | the deletion works piece by piece, so every other character is kept, in order |
| ObjImportProps.ImportLinesHaveNoBreaks | src/controllers/objImport.controller.ts:24-30 | no line the scan reads contains `\r` or `\n` |
| ObjImportProps.StemStops | src/controllers/objImport.controller.ts:82-83 | from an index with an option line at most six lines on, the stem loop stops without appending |
| ObjImportProps.StemIsStartLine | src/controllers/objImport.controller.ts:72-88 | the stem of a block is exactly its starting line: the continuation append at line 86 is unreachable |
| ObjImportProps.MatchLetters | src/controllers/objImport.controller.ts:36-37 | the option and answer patterns capture a letter from A–E in either case |
| ObjImportProps.ConsumeUnfold | src/controllers/objImport.controller.ts:108-130 | on an option or answer line the options loop moves one line on with the consumed state |
| ObjImportProps.ConsumeLastWins | src/controllers/objImport.controller.ts:111-130 | consuming one more line keeps "each slot holds the last text for its letter" |
| ObjImportProps.ReadOptionsRun | src/controllers/objImport.controller.ts:100-134 | the options loop consumes the maximal run of option and answer lines and pushes no warning |
| ObjImportProps.ReadOptionsLastWins | src/controllers/objImport.controller.ts:111-130 | each slot ends with the text of the last option line for its letter, and `correct` with the last answer letter |
| ObjImportProps.BlockOptions | src/controllers/objImport.controller.ts:91-134 | from the empty slots a block leaves each slot holding the last text for its letter |
| ObjImportProps.LastAnswerValid | src/controllers/objImport.controller.ts:121-127 | the last answer of a block is empty or one of A–E |
| ObjImportProps.EmitWellFormed | src/controllers/objImport.controller.ts:150-159 | pushing a question keeps the output well formed, with ids 1, 2, 3, … |
| ObjImportProps.SkipWellFormed | src/controllers/objImport.controller.ts:140-148 | skipping a block keeps the output well formed |
| ObjImportProps.BlockWellFormed | src/controllers/objImport.controller.ts:63-160 | one block of the outer loop keeps the output well formed |
| ObjImportProps.CollectWellFormed | src/controllers/objImport.controller.ts:63-160 | the outer loop keeps the output well formed, with the id counter one past the last id |
| ObjImportProps.ImportWellFormed | src/controllers/objImport.controller.ts:24-160 | ids are consecutive from 1; `correct` is empty or A–E; every question has option text and a starting line as its text; every warning is a skipped block; "Invalid answer format" never occurs |
| ObjImportProps.SkippedMessageQuotesPrefix | src/controllers/objImport.controller.ts:141-146 | a skipped block's warning quotes at most the first 50 characters of its stem |
| ObjImportProps.JoinedStemStops | src/controllers/objImport.controller.ts:75-88 | the corrected stem loop stops at the first option or answer line |
| ObjImportProps.JoinedStemText | src/controllers/objImport.controller.ts:85-86 | the corrected stem loop's text is the starting text and then each line it passed, one space apart |
| ObjImportProps.JoinedStemSpec | src/controllers/objImport.controller.ts:71-88 | corrected: every line before the first option or answer line joins the stem, and the loop stops at that line |
| ObjImportProps.ContinuationLineDropped | src/controllers/objImport.controller.ts:66-88 | as written: the first line of a two-line stem is skipped with a warning, and the question keeps only the second line |
| ObjImportProps.ContinuationLineJoined | src/controllers/objImport.controller.ts:71-88 | corrected: on the same lines both stem lines are kept |
| RollNumber.FindAdxSerial | src/utils/rollNumber.ts:18-19 | the captured group of `match(/ADX-(\d+)/)` is a non-empty run of digits, or there is no match |
| RollNumber.GenerateSequentialRollNumber | src/utils/rollNumber.ts:7-27 | the roll number starts with `ADX-` and has at least three characters after it |
| RollNumber.FindAdxSerialSpec | src/utils/rollNumber.ts:18 | the match is the leftmost `ADX-<digit>` and takes the whole digit run; no match means no `ADX-<digit>` anywhere |
| RollNumber.FormatRollDigits | src/utils/rollNumber.ts:25-26 | `ADX-` plus the serial's digits zero-padded to at least three, never cut |
| RollNumber.FirstRollNumber | src/utils/rollNumber.ts:14-16 | without a previous student, or with an empty roll number, the result is `ADX-001` |
| RollNumber.NextAfterMatch | src/utils/rollNumber.ts:18-21 | a previous `ADX-<digits>` gives that number plus one |
| RollNumber.RestartWithoutMatch | src/utils/rollNumber.ts:14-19 | a previous roll number with no `ADX-<digit>` restarts at 1 |
| RollNumber.LowerCaseRollRestarts | src/utils/rollNumber.ts:18 | the lower-case `adx-2025-003` of the year-based generators does not match, so the serial restarts at `ADX-001` |
| RollNumber.PaddingExamples | src/utils/rollNumber.ts:24-25 | 7 becomes `ADX-007` and 1000 stays `ADX-1000` |
| RollNumber.RoundTrip | src/utils/rollNumber.ts:7-27 | feeding a generated roll number back in as the last one gives the next serial |
| RollNumber.FormatRollReadsBack | src/utils/rollNumber.ts:18-27 | the serial matched in `ADX-<n>` is `n`, so the number after it is `n + 1` |
| RollNumber.FormatRollInjective | src/utils/rollNumber.ts:25-26 | distinct serials give distinct roll numbers |
| Roll.CountThisYear | src/utils/roll.ts:12-19 | the yearly count is at most the number of students |
| Roll.RollFor | src/utils/roll.ts:21-24 | the roll number starts with `adx-<year>-` and has a serial of at least three characters |
| Roll.GenerateRollNumber | src/utils/roll.ts:8-25 | the text after the last `-` parses back as this year's count plus one |
| Roll.SerialDigits | src/utils/roll.ts:22 | the serial is the digits of `next`, zero-padded to at least three and never cut, with no `-` |
| Roll.RollSerialRoundTrip | src/utils/roll.ts:21-24 | the text after the last `-` is the serial and reads back as the count plus one |
| Roll.FirstOfTheYear | src/utils/roll.ts:12-24 | with no student created this year the result is `adx-<year>-001` |
| Roll.NoneThisYear | src/utils/roll.ts:12-19 | the count is 0 when no creation year equals the current year |
| Roll.CountAfterCreate | src/utils/roll.ts:12-21 | a student created this year moves the next serial on by one; one from another year does not |
| Roll.RollInjective | src/utils/roll.ts:21-24 | for a fixed year distinct counts give distinct roll numbers |
| Roll.SerialIncreasing | src/utils/roll.ts:21-22 | a larger count gives a serial of larger value |
| Roll.SerialLengthMonotone | src/utils/roll.ts:22 | a larger number never gives a shorter zero-padded serial |
| StudentController.NextNumberPositive | src/controllers/studentController.ts:15-19 | the last number is never negative and the next one is at least 1, unless NaN |
| StudentController.GenerateRollNumber | src/controllers/studentController.ts:7-25 | the roll number starts with `adx-<year>-` and has a serial of at least three characters; RoundTrip states the serial |
| StudentController.CreateStudent | src/controllers/studentController.ts:42-103 | 400 exactly when a required field is falsy; 404 exactly when the school is unknown; otherwise a pending student with the generated roll number, no approval, the school's subdomain and the default performance; term and semester are those of the school's type (never both); admission number, names, gender, email, contact number, academic year and level are the request's; `dob` is kept only when truthy |
| StudentController.NoPreviousStudent | src/controllers/studentController.ts:15-24 | without a previous student the result ends in `-001` |
| StudentController.EmptyTailCountsAsZero | src/controllers/studentController.ts:16 | a previous roll number ending in `-`, or empty, counts as serial 0 |
| StudentController.EmptyTailNext | src/controllers/studentController.ts:15-19 | an empty tail reads as `"0"`, so the next serial is 1 |
| StudentController.PreviousSerial | src/controllers/studentController.ts:16-19 | a digit tail after the last `-` gives its decimal value plus one |
| StudentController.NonNumericTailIsNaN | src/controllers/studentController.ts:16 | `parseInt("abc")` is NaN |
| StudentController.NonNumericTail | src/controllers/studentController.ts:16-24 | after `adx-2025-abc` the result is `adx-<year>-NaN` |
| StudentController.FormattedReadsBack | src/controllers/studentController.ts:22 | a formatted serial holds no `-` and parses back to itself; NaN stays NaN |
| StudentController.RollOfTail | src/controllers/studentController.ts:16-24 | the text after the last `-` of a generated roll number is its formatted serial |
| StudentController.RoundTrip | src/controllers/studentController.ts:7-25 | feeding a generated roll number back in gives the serial plus one, and NaN stays NaN |
| StudentController.SerialIncreases | src/controllers/studentController.ts:15-22 | the serial strictly increases along a chain of generated roll numbers |
| StudentController.TermSemesterRule | src/controllers/studentController.ts:71-75 | "First Term" only for HIGH_SCHOOL; "First Semester" only for TERTIARY; neither otherwise |
| ExamUtils.Missing | src/modules/exam/examUtils.ts:12-16 | one falsy flag per checked field |
| ExamUtils.ValidateExamData | src/modules/exam/examUtils.ts:9-19 | the pushed errors are the messages of the falsy fields, in checking order |
| ExamUtils.NoErrorsIffComplete | src/modules/exam/examUtils.ts:12-16 | no error exactly when all five fields are truthy |
| ExamUtils.OneMessagePerMissingField | src/modules/exam/examUtils.ts:12-16 | each message appears exactly when its field is falsy, and there are as many errors as falsy fields |
| ExamUtils.ZeroDurationIsMissing | src/modules/exam/examUtils.ts:15 | a duration of 0 is reported as missing |
| ExamUtils.FourDigits | src/modules/exam/examUtils.ts:3 | the random number in 1000–9999 prints as four digits |
| ExamUtils.GenerateExamCode | src/modules/exam/examUtils.ts:1-7 | the code starts with `EXM-<year>-`, followed by four characters, and three more exactly for a resit |
| ExamUtils.ExamCodeRoundTrip | src/modules/exam/examUtils.ts:1-7 | the tail of a generated code reads back the four-digit number, and `-R1` is present exactly for a resit |
| ExamUtils.CodeTailOf | src/modules/exam/examUtils.ts:4-6 | for any head, the tail of `<head>-<four digits>[-R1]` gives back the digits and whether `-R1` was appended |
| ExamUtils.ExamCodePrefix | src/modules/exam/examUtils.ts:4 | the code starts with `EXM-<year>-` |
| ExamService.CreateExam | src/modules/exam/examService.ts:8-78 | the exam is created exactly when the data is valid and, for a resit, the linked code is known |
| ExamService.CreateExamInvalid | src/modules/exam/examService.ts:9-12 | invalid data fails with the validation messages joined by ", " |
| ExamService.CreateExamLinkedMissing | src/modules/exam/examService.ts:50-56 | a resit whose linked code is unknown fails with "Linked exam not found" |
| ExamService.CreateExamCode | src/modules/exam/examService.ts:31-47 | a created exam carries the generated code, with `-R1` exactly for a resit, and the payload's school |
| ExamService.CreateExamTitle | src/modules/exam/examService.ts:32-65 | a found linked exam sets `linkedExamId` and the title `<linked title> (Resit)`; without the resit branch the title is the payload's and nothing is linked |
| ExamService.FailedCourses | src/modules/exam/examService.ts:58-60 | no more courses than results, and each listed course has a result below 50, a missing score counting as 0 |
| ExamService.FailedCoursesMembers | src/modules/exam/examService.ts:58-60 | a course is listed exactly when one of its results scored below 50, a missing score counting as 0 |
| ExamService.FailedCoursesAppend | src/modules/exam/examService.ts:58-60 | the filter keeps result order |
| ExamService.MissingScoreFails | src/modules/exam/examService.ts:59 | a missing score and a score of 0 both fail |
| ExamService.SingleMissingFieldMessage | src/modules/exam/examService.ts:9-12 | with one falsy field the failure message is that field's message alone |
| ExamService.BuildFilter | src/modules/exam/examService.ts:86-88 | a condition is added exactly for a truthy school id string or status; the school condition holds the converted number, which may be NaN |
| ExamService.Matching | src/modules/exam/examService.ts:90-91 | the listing has no more exams than the table; it holds every exam of the table that satisfies the filter, and only such exams |
| ExamService.MatchingMembers | src/modules/exam/examService.ts:90-91 | an exam is listed exactly when it is in the table and satisfies the filter |
| ExamService.MatchingAppend | src/modules/exam/examService.ts:90-106 | the filter keeps table order: filtering two runs of the table gives the two filtered runs in order |
| ExamService.Window | src/modules/exam/examService.ts:103-104 | `skip`/`take` gives at most `take` rows |
| ExamService.GetExams | src/modules/exam/examService.ts:83-119 | `page` and `limit` default to 1 and 10; a page holds at most `limit` exams, each satisfying the filter; `total` is the number of matching exams; `limit` 0 gives no exams and a `pages` that is not a finite number |
| ExamService.DefaultPage | src/modules/exam/examService.ts:84-106 | without `page` and `limit` the listing is page 1 of 10: the first ten matching exams |
| ExamService.PageWindow | src/modules/exam/examService.ts:103-104 | page `p` of `limit` rows is the window of the matching exams after the `p - 1` earlier pages |
| ExamService.CeilDivSpec | src/modules/exam/examService.ts:116 | `pages` is the least number of pages of `limit` rows holding `total` rows |
| ExamService.PageNonEmptyIff | src/modules/exam/examService.ts:103-117 | a page holds exams exactly when its number is at most `pages` |
| ExamService.WindowsAdjacent | src/modules/exam/examService.ts:103-104 | two consecutive windows are one run of rows |
| ExamService.PagesAreConsecutive | src/modules/exam/examService.ts:103-106 | pages `p` and `p + 1` together are one run of the matching exams |
| ExamService.SkipNext | src/modules/exam/examService.ts:103 | page `p + 1` starts `limit` rows after page `p` |
| ExamService.ConsecutiveWindows | src/modules/exam/examService.ts:103-104 | on any rows, the windows of pages `p` and `p + 1` join into one window of twice the limit |
| ExamService.EmptyFilterKeepsAll | src/modules/exam/examService.ts:86-88 | with no condition every exam matches |
| ExamService.ZeroSchoolIdIsACondition | src/modules/exam/examService.ts:87 | the string `"0"` is truthy: it adds the condition `schoolId = 0`, which lists nothing when no exam belongs to school 0 |
| ExamService.NaNSchoolIdListsNothing | src/modules/exam/examService.ts:87 | a non-empty school id that converts to NaN lists no exam |
| ExamService.ApprovalMessage | src/modules/exam/examService.ts:169 | the notification quotes the title after `Exam "` and has the fixed length of the surrounding text |
| ExamService.ExamStore.constructor | src/modules/exam/examService.ts:157-197 | the store starts with the given exams and no notification |
| ExamService.ExamStore.ApproveExam | src/modules/exam/examService.ts:157-174 | an unknown id throws "Exam not found" and changes nothing; otherwise only the status becomes APPROVED, and exactly one notification quoting the title is added |
| ExamService.ExamStore.UpdateExamStatus | src/modules/exam/examService.ts:179-197 | a status outside the whitelist throws "Invalid status" before any lookup; an unknown id is Prisma's missing-record error; otherwise only the status is written; validity is kept |
| ExamService.StatusWhitelist | src/modules/exam/examService.ts:180-189 | PENDING, APPROVED, LIVE and CLOSED pass; lower-case `approved`, `DRAFT` and the empty string are rejected |
| ResultsController.FirstCode | src/controllers/resultsController.ts:11-16 | the first access code matching the given code and admission number, or none |
| ResultsController.FirstRow | src/controllers/resultsController.ts:23-31 | the first result row matching the given fields, or none |
| ResultsController.Lookup | src/controllers/resultsController.ts:11-41 | the code table keeps its length and changes only when a result is released; a released row is one of the stored rows and matches the request |
| ResultsController.ResultStore.constructor | src/controllers/resultsController.ts:11-41 | the store holds the given tables |
| ResultsController.ResultStore.GetStudentResult | src/controllers/resultsController.ts:6-46 | the response and the new code table are those of `Lookup`; the result table is unchanged |
| ResultsController.CounterOnlyOnSuccess | src/controllers/resultsController.ts:33-41 | only a released result changes the table, and then exactly one counter goes up by one |
| ResultsController.ErrorCases | src/controllers/resultsController.ts:19-33 | in order: no code gives 400 "Invalid code"; an exhausted code gives 400 "Code already used 3 times"; no row gives 404 "Result not found" |
| ResultsController.ReleasedRowMatches | src/controllers/resultsController.ts:23-41 | a released row matches every field the request gives |
| ResultsController.LimitsKept | src/controllers/resultsController.ts:20-38 | one request keeps every counter within its limit |
| ResultsController.RunCountsUses | src/controllers/resultsController.ts:20-39 | over any sequence of requests the counters stay within their limits and grow by exactly the number of results released |
| ResultsController.EmptyRequestReleasesFirstRow | src/controllers/resultsController.ts:8-31 | as written: a request with none of the fields matches the first stored code and releases the first stored result |
| ResultsController.StrictLookupReleasesOnlyExactMatch | src/controllers/resultsController.ts:11-41 | corrected: a released row is keyed exactly by the request, and the counted code is the requested code of that student |
| ResultsController.StrictLookupRefusesMissingCode | src/controllers/resultsController.ts:11-19 | corrected: a request without its access code is refused and nothing is counted |
| ApprovalController.StudentTable.constructor | src/controllers/approvalController.ts:13-14 | the table holds the given students |
| ApprovalController.StudentTable.ApproveStudent | src/controllers/approvalController.ts:8-34 | a non-numeric id gives 500 "Server error"; an unknown id gives 404 "Student not found"; both change nothing; otherwise exactly that student becomes the approved record |
| ApprovalController.StudentTable.RejectStudent | src/controllers/approvalController.ts:41-69 | the same error cases; otherwise exactly that student becomes the rejected record |
| ApprovalController.ApproveWrites | src/controllers/approvalController.ts:15-22 | approval sets status "approved", active, decided now by the acting user; the rejection note and the profile are kept |
| ApprovalController.RejectWrites | src/controllers/approvalController.ts:49-57 | rejection sets status "rejected", inactive, decided now, with a non-empty note; the profile is kept |
| ApprovalController.RejectionNoteDefault | src/controllers/approvalController.ts:55 | the note is the reason when it is truthy, else "No reason provided" |
| ApprovalController.ApprovedByForms | src/controllers/approvalController.ts:18-20 | `school-<schoolId>` for a truthy school id; otherwise `admin-<id>`, or `admin-unknown` without a user or an id |
| ApprovalController.ZeroSchoolIdFallsBack | src/controllers/approvalController.ts:18-20 | a school id of 0 is falsy, so the admin form is used |
| ApprovalController.LaterDecisionWins | src/controllers/approvalController.ts:13-58 | a later decision overrides an earlier one on every decision field; approval after rejection keeps the rejection note |
| DepartmentController.AdmissionPrefix | src/controllers/departmentController.ts:149 | the prefix holds no `/` and begins the preview |
| DepartmentController.AdmissionRegex | src/controllers/departmentController.ts:150 | the pattern is 20 characters longer than the prefix, begins with `^` and ends with `$` |
| DepartmentController.MatchesFormat | src/controllers/departmentController.ts:150 | a string the pattern accepts is 12 characters longer than the prefix and begins with it |
| DepartmentController.PrefixBeforeFirstSlash | src/controllers/departmentController.ts:149 | the prefix holds no `/`; it is the whole preview when there is no `/`, and otherwise the text before the first `/` |
| DepartmentController.RegexShape | src/controllers/departmentController.ts:150 | the stored pattern is `^`, the prefix, then `\/AD\/\d{4}\/\d{3}$` |
| DepartmentController.RegexInjective | src/controllers/departmentController.ts:150 | the pattern text determines its prefix |
| DepartmentController.MatchesAreAdmissionNumbers | src/controllers/departmentController.ts:150 | every string the pattern accepts is `<prefix>/AD/<4 digits>/<3 digits>` |
| DepartmentController.PreviewMatchesItsFormat | src/controllers/departmentController.ts:148-150 | a preview of the documented shape yields its own prefix, and the derived pattern accepts the preview |
| DepartmentController.MatchedNumberHasPrefix | src/controllers/departmentController.ts:149-150 | a string the derived pattern accepts gives back the same prefix |
| DepartmentController.EcnsExample | src/controllers/departmentController.ts:148-149 | `ECNS/AD/2024/001` has the prefix `ECNS`, and the ECNS pattern accepts it |
| DepartmentController.EcnsPattern | src/controllers/departmentController.ts:150 | the ECNS pattern text is `^ECNS\/AD\/\d{4}\/\d{3}$` |
| DepartmentController.ShortYearRejected | src/controllers/departmentController.ts:150 | a two-digit year is not accepted |
| DepartmentController.DepartmentStore.constructor | src/controllers/departmentController.ts:15-29 | the store holds the given schools and no department |
| DepartmentController.DepartmentStore.CreateDepartment | src/controllers/departmentController.ts:6-39 | 400 "Name and schoolId are required" without a truthy name and school id; 404 "School not found" for an unknown school; a taken id fails with 500; all three create nothing; otherwise 201 with the new department and only that row added; validity is kept |
| DepartmentController.DepartmentStore.UpdateDepartment | src/controllers/departmentController.ts:103-121 | an unknown id gives 500 "Failed to update department" and changes nothing; otherwise only the given name and code of that department are written |
| DepartmentController.DepartmentStore.SetAdmissionFormat | src/controllers/departmentController.ts:140-170 | 400 "Missing required fields" without a truthy department id and preview; an unknown department gives 500 "Error setting format"; both change nothing; otherwise only the preview and its derived pattern are written |
| DepartmentController.RenameWritesOnlyNameAndCode | src/controllers/departmentController.ts:108-111 | an update writes the name and code that are given, keeps absent ones, and touches no other field |
| DepartmentController.EmptyRenameIsIdentity | src/controllers/departmentController.ts:108-111 | an empty update body leaves the department as it was |
| DepartmentController.FormatWritesOnlyFormat | src/controllers/departmentController.ts:152-158 | setting the format writes only the preview and its derived pattern |
| DepartmentController.FormatLastWins | src/controllers/departmentController.ts:152-158 | a later format replaces an earlier one, so setting the same preview twice is the same as once |
| DepartmentController.StoredFormatAcceptsPreview | src/controllers/departmentController.ts:148-158 | after setting a preview of the documented shape, the stored pattern accepts the stored preview |

## Left out

- File and DOCX extraction, temporary-file clean-up and uploads are not modelled. The parsers start from the already-extracted text.
- Persistence is not modelled:
  - every Prisma lookup is a parameter or a class field;
  - every write is a returned record or a new class state;
  - the `include`d relations of created and listed rows are not modelled.
- Concurrency is not modelled. Two simultaneous requests can compute the same roll number or both pass the access-code limit. The model is sequential.
- Password hashing (studentController.ts:78) is left out, and the stored student record has no password field.
- The clock (`new Date()`, `getFullYear()`) and `Math.random` are parameters: a year, an instant and a four-digit number.
- HTTP routing, `console.error` logging and the JSON shapes of the responses beyond the status and message are not modelled.
- Catch-all 500 paths whose trigger is a database failure are not modelled.
  - The failures that follow from the modelled state are modelled: an unknown id, a taken id, and a non-numeric student id.
  - `createStudent`'s 500 "Internal server error" has no such trigger in the model.
- Strings are sequences of characters, and lengths are counted in characters.
  - The source slices and pads UTF-16 code units; they agree for text within the Basic Multilingual Plane.
  - `toUpperCase` is modelled on the letters the patterns accept (A–E, a–e) only.
- Number conversions are not modelled:
  - `Number()` and `new Date()` on request fields: fields arrive already typed, with `None` for absent.
  - `parseInt`'s loss of precision beyond 2^53: integers are unbounded.
- Scores are reals, not floating-point numbers.
- ExamService.GetExams: requires `limit >= 0` and a `skip` of `(page - 1) * limit` that is not negative.
  - Prisma rejects a negative `skip` at run time; that error is not modelled.
  - A negative `take` makes Prisma count rows back from the end of the ordered list; that reading is not modelled.
  - A `page` or `limit` that is given but not a number (NaN after `Number()`) is not modelled.
- ExamService.BuildFilter: the school id is the query string, and its `Number()` conversion is a parameter (`None` for NaN); how `Number()` reads a string is not modelled. Prisma rejects a NaN `schoolId` condition at run time; the model lets it match no exam instead.
- ExamService.CeilDiv models `Math.ceil(total / limit)` with integer arithmetic, not floating point.
- ExamService.CreateExam: the remaining payload fields (mode, examTypes, department, level, class, session year, dates, creator) are copied through and not otherwise checked. `failedCourses` is computed by `FailedCourses` but, as in the source, not stored.
- DepartmentController.AdmissionRegex: the prefix is inserted into the pattern without escaping. `MatchesFormat` reads the prefix literally, which is what the pattern means only when the prefix has no regular-expression metacharacters.
- ApprovalController.StudentTable.ApproveStudent: any non-numeric id (NaN) is treated as a query error (500), and the shape of the error body is not modelled.
- The acting user's `schoolId` is modelled as a number, so a non-numeric string school id is not modelled.
- `getDepartments`, `getDepartment`, `getDepartmentsBySchool` and `deleteDepartment` are plain reads and deletes without rules and are not modelled. Neither are `getExamById` and `publishExam` in the exam service.

## Findings

| source | as written | input that shows it | evidently intended | confidence | as-written member | corrected member |
|---|---|---|---|---|---|---|
| src/controllers/objImport.controller.ts:66-88 | a question whose stem spans two lines loses its first line: that line already "looks like a question", so it is skipped with a warning, and the next line starts the block; the continuation append at line 86 can never run | the lines `What is`, `two plus two?`, `A. 3` | every line before the first option or answer line joins the stem, one space apart | not executed | ObjImportProps.ContinuationLineDropped | ObjImportProps.JoinedStemSpec |
| src/controllers/resultsController.ts:8-31 | an absent `accessCode`, `admissionNo` or result field places no condition in the Prisma filter, so a request with an empty body matches the first stored access code and releases the first stored result | `{}` as the request body, with one access code and one result stored | every key field must be given and must equal the stored one; a request without the code is refused | not executed | ResultsController.EmptyRequestReleasesFirstRow | ResultsController.StrictLookupReleasesOnlyExactMatch |
