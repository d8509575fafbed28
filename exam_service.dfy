/**
 * The exam service (src/modules/exam/examService.ts): creating an exam (with
 * the resit derivation from a linked exam), listing exams a page at a time,
 * approving an exam and changing its status. The exam table is a map from id
 * to exam, the linked-exam lookup a map from exam code to exam; the clock's
 * year and the random part of the code are parameters.
 */
module ExamService {
  import opened Text
  import opened ExamUtils

  datatype Result<T> = Success(value: T) | Failure(message: string)

  // ------------------------------------------------------------ createExam

  /** The payload `createExam` reads; `None` is an absent field. */
  datatype ExamInput = ExamInput(
    fields: ExamFields,
    mode: Option<string>,
    examTypes: seq<string>,
    departmentId: Option<string>,
    levelId: Option<string>,
    classId: Option<string>,
    sessionYear: Option<string>,
    isResit: Option<bool>,
    linkedExamCode: Option<string>,
    createdById: Option<string>)

  /** One stored result of a linked exam; a `None` score is a missing one. */
  datatype ExamResult = ExamResult(courseId: string, score: Option<real>)

  /** The linked exam as the lookup by code returns it, with its results. */
  datatype LinkedExam = LinkedExam(id: string, examTitle: string, results: seq<ExamResult>)

  /** The row `prisma.exam.create` writes (`baseData`). */
  datatype NewExam = NewExam(
    examTitle: string,
    examCode: string,
    mode: Option<string>,
    examTypes: seq<string>,
    departmentId: Option<string>,
    levelId: Option<string>,
    classId: Option<string>,
    sessionYear: Option<string>,
    startDate: string,
    endDate: string,
    duration: int,
    isResit: bool,
    createdById: Option<string>,
    schoolId: int,
    linkedExamId: Option<string>)

  /** `Boolean(isResit)`, also the argument of `generateExamCode` (absent is false). */
  predicate IsResit(flag: Option<bool>) {
    flag == Some(true)
  }

  /** `isResit && linkedExamCode`: the resit branch is taken. */
  predicate TakesResitBranch(data: ExamInput) {
    IsResit(data.isResit) && Truthy(data.linkedExamCode)
  }

  /** `errors.join(", ")` */
  function JoinedErrors(errors: seq<string>): string {
    Join(errors, ", ")
  }

  /** The title a resit gets from its linked exam. */
  function ResitTitle(linkedTitle: string): string {
    linkedTitle + " (Resit)"
  }

  /** `baseData` before the resit branch. */
  function BaseData(data: ExamInput, examCode: string): NewExam
    requires ValidationErrors(data.fields) == []
  {
    NoErrorsIffComplete(data.fields);
    var f := data.fields;
    NewExam(f.examTitle.value, examCode, data.mode, data.examTypes, data.departmentId,
      data.levelId, data.classId, data.sessionYear, f.startDate.value, f.endDate.value,
      f.duration.value, IsResit(data.isResit), data.createdById, f.schoolId.value, None)
  }

  /**
   * `createExam`: fails with the joined validation messages, or with
   * "Linked exam not found" for a resit whose linked code is unknown;
   * otherwise the created exam, renamed after its linked exam for a resit.
   */
  function CreateExam(data: ExamInput, year: int, random: nat,
                      examsByCode: map<string, LinkedExam>): (r: Result<NewExam>)
    requires 1000 <= random <= 9999
    ensures r.Success? <==>
      (ValidationErrors(data.fields) == [] &&
       (TakesResitBranch(data) ==> data.linkedExamCode.value in examsByCode))
  {
    var errors := ValidationErrors(data.fields);
    if errors != [] then Failure(JoinedErrors(errors))
    else
      var base := BaseData(data, GenerateExamCode(year, random, IsResit(data.isResit)));
      if TakesResitBranch(data) then
        if data.linkedExamCode.value !in examsByCode then Failure("Linked exam not found")
        else
          var linked := examsByCode[data.linkedExamCode.value];
          Success(base.(linkedExamId := Some(linked.id), examTitle := ResitTitle(linked.examTitle)))
      else Success(base)
  }

  /** Invalid data fails with the validation messages joined by ", ", before any lookup. */
  lemma CreateExamInvalid(data: ExamInput, year: int, random: nat, examsByCode: map<string, LinkedExam>)
    requires 1000 <= random <= 9999
    requires ValidationErrors(data.fields) != []
    ensures CreateExam(data, year, random, examsByCode) == Failure(JoinedErrors(ValidationErrors(data.fields)))
  {
  }

  /** A resit whose linked code is unknown fails with "Linked exam not found". */
  lemma CreateExamLinkedMissing(data: ExamInput, year: int, random: nat, examsByCode: map<string, LinkedExam>)
    requires 1000 <= random <= 9999
    requires ValidationErrors(data.fields) == [] && TakesResitBranch(data)
    requires data.linkedExamCode.value !in examsByCode
    ensures CreateExam(data, year, random, examsByCode) == Failure("Linked exam not found")
  {
  }

  /** A created exam carries the generated code (with `-R1` exactly for a resit) and the payload's school. */
  lemma CreateExamCode(data: ExamInput, year: int, random: nat, examsByCode: map<string, LinkedExam>)
    requires 1000 <= random <= 9999
    requires CreateExam(data, year, random, examsByCode).Success?
    ensures var e := CreateExam(data, year, random, examsByCode).value;
      e.examCode == GenerateExamCode(year, random, IsResit(data.isResit))
      && e.isResit == IsResit(data.isResit)
      && ExamCodeTail(e.examCode).1 == e.isResit
      && e.schoolId == data.fields.schoolId.value
  {
    ExamCodeRoundTrip(year, random, IsResit(data.isResit));
  }

  /**
   * Resit derivation: a found linked exam sets `linkedExamId` and the title
   * `<linked title> (Resit)`; without the resit branch the payload's title is
   * kept and nothing is linked.
   */
  lemma CreateExamTitle(data: ExamInput, year: int, random: nat, examsByCode: map<string, LinkedExam>)
    requires 1000 <= random <= 9999
    requires CreateExam(data, year, random, examsByCode).Success?
    ensures var e := CreateExam(data, year, random, examsByCode).value;
      if TakesResitBranch(data) then
        var linked := examsByCode[data.linkedExamCode.value];
        e.linkedExamId == Some(linked.id) && e.examTitle == ResitTitle(linked.examTitle)
      else
        e.linkedExamId.None? && Some(e.examTitle) == data.fields.examTitle
  {
    NoErrorsIffComplete(data.fields);
  }

  /** `result.score || 0`: a missing score counts as zero. */
  function Score(r: ExamResult): real {
    if r.score.Some? then r.score.value else 0.0
  }

  /** The course ids of the linked results scored below 50, in result order. */
  function FailedCourses(results: seq<ExamResult>): (r: seq<string>)
    ensures |r| <= |results|
    ensures forall i :: 0 <= i < |r| ==>
      exists k :: 0 <= k < |results| && results[k].courseId == r[i] && Score(results[k]) < 50.0
  {
    if results == [] then []
    else
      var n := |results| - 1;
      var init := FailedCourses(results[..n]);
      assert forall i :: 0 <= i < |init| ==>
        exists k :: 0 <= k < |results| && results[k].courseId == init[i] && Score(results[k]) < 50.0 by {
        forall i | 0 <= i < |init|
          ensures exists k :: 0 <= k < |results| && results[k].courseId == init[i] && Score(results[k]) < 50.0
        {
          var k :| 0 <= k < n && results[..n][k].courseId == init[i] && Score(results[..n][k]) < 50.0;
          assert results[k] == results[..n][k];
        }
      }
      init + (if Score(results[n]) < 50.0 then [results[n].courseId] else [])
  }

  /** A course is listed exactly when some result for it scored below 50 (missing counts as 0). */
  lemma {:induction false} FailedCoursesMembers(results: seq<ExamResult>, c: string)
    ensures c in FailedCourses(results) <==>
      exists k :: 0 <= k < |results| && results[k].courseId == c && Score(results[k]) < 50.0
  {
    if results != [] {
      var n := |results| - 1;
      FailedCoursesMembers(results[..n], c);
      assert FailedCourses(results) ==
        FailedCourses(results[..n]) + (if Score(results[n]) < 50.0 then [results[n].courseId] else []);
      if exists k :: 0 <= k < |results| && results[k].courseId == c && Score(results[k]) < 50.0 {
        var k :| 0 <= k < |results| && results[k].courseId == c && Score(results[k]) < 50.0;
        if k < n {
          assert results[..n][k] == results[k];
        }
      }
    }
  }

  /** The filter keeps result order: the failed courses of two runs of results concatenate. */
  lemma {:induction false} FailedCoursesAppend(a: seq<ExamResult>, b: seq<ExamResult>)
    ensures FailedCourses(a + b) == FailedCourses(a) + FailedCourses(b)
    decreases |b|
  {
    if b == [] {
      assert a + b == a;
    } else {
      var n := |b| - 1;
      assert (a + b)[..|a + b| - 1] == a + b[..n];
      FailedCoursesAppend(a, b[..n]);
    }
  }

  /** A missing score and a score of 0 both fail. */
  lemma MissingScoreFails(c: string)
    ensures FailedCourses([ExamResult(c, None)]) == [c]
    ensures FailedCourses([ExamResult(c, Some(0.0))]) == [c]
    ensures FailedCourses([ExamResult(c, Some(50.0))]) == []
  {
    assert [ExamResult(c, None)][..0] == [];
    assert [ExamResult(c, Some(0.0))][..0] == [];
    assert [ExamResult(c, Some(50.0))][..0] == [];
  }

  /** With one missing field the failure message is that field's message alone. */
  lemma SingleMissingFieldMessage(data: ExamInput, year: int, random: nat, examsByCode: map<string, LinkedExam>)
    requires 1000 <= random <= 9999
    requires |ValidationErrors(data.fields)| == 1
    ensures CreateExam(data, year, random, examsByCode) == Failure(ValidationErrors(data.fields)[0])
  {
  }

  // ------------------------------------------------------------ getExams

  /**
   * `where`: the school and status conditions, present only when given.
   * A school condition holds `Number(schoolId)`, with `None` for NaN.
   */
  datatype ExamFilter = ExamFilter(schoolId: Option<Option<int>>, status: Option<string>)

  /** The stored exam fields the service reads and writes. */
  datatype Exam = Exam(id: string, examTitle: string, schoolId: int, status: string)

  /**
   * Builds `where` from the query. The school id arrives as the query string and
   * is tested for truthiness before it is converted: `schoolNumber` is what
   * `Number()` makes of it (`None` for NaN). A falsy school id or status adds no
   * condition.
   */
  function BuildFilter(schoolId: Option<string>, schoolNumber: Option<int>, status: Option<string>): (w: ExamFilter)
    ensures w.schoolId.Some? <==> Truthy(schoolId)
    ensures w.status.Some? <==> Truthy(status)
    ensures w.schoolId.Some? ==> w.schoolId.value == schoolNumber
    ensures w.status.Some? ==> w.status == status
  {
    ExamFilter(if Truthy(schoolId) then Some(schoolNumber) else None,
               if Truthy(status) then status else None)
  }

  /** A NaN school condition matches no stored school id. */
  predicate Matches(e: Exam, w: ExamFilter) {
    (w.schoolId.None? || w.schoolId.value == Some(e.schoolId))
    && (w.status.None? || e.status == w.status.value)
  }

  /** The exams matching `w`, in the given order (newest first). */
  function Matching(exams: seq<Exam>, w: ExamFilter): (r: seq<Exam>)
    ensures |r| <= |exams|
    ensures forall k :: 0 <= k < |r| ==> Matches(r[k], w)
    ensures forall e :: e in r ==> e in exams
    ensures forall e :: e in exams && Matches(e, w) ==> e in r
  {
    if exams == [] then []
    else
      var n := |exams| - 1;
      assert exams == exams[..n] + [exams[n]];
      Matching(exams[..n], w) + (if Matches(exams[n], w) then [exams[n]] else [])
  }

  /** An exam is listed exactly when it is in the table and matches the filter. */
  lemma {:induction false} MatchingMembers(exams: seq<Exam>, w: ExamFilter, e: Exam)
    ensures e in Matching(exams, w) <==> e in exams && Matches(e, w)
  {
    if exams != [] {
      var n := |exams| - 1;
      MatchingMembers(exams[..n], w, e);
      assert exams == exams[..n] + [exams[n]];
    }
  }

  /** The filter keeps table order: filtering two runs of the table and concatenating is filtering the whole. */
  lemma {:induction false} MatchingAppend(a: seq<Exam>, b: seq<Exam>, w: ExamFilter)
    ensures Matching(a + b, w) == Matching(a, w) + Matching(b, w)
    decreases |b|
  {
    if b == [] {
      assert a + b == a;
    } else {
      var n := |b| - 1;
      assert (a + b)[..|a + b| - 1] == a + b[..n];
      MatchingAppend(a, b[..n], w);
    }
  }

  /** `Math.ceil(a / b)` for integers, `b` non-zero. */
  function CeilDiv(a: int, b: int): int
    requires b != 0
  {
    if b > 0 then (a + b - 1) / b else (-a - b - 1) / (-b)
  }

  /** `Math.ceil(total / limit)` as a JavaScript number: a count, or not finite when `limit` is 0. */
  datatype PageCount = Pages(count: int) | Infinite | NaN

  /** `pages`: `total / 0` is Infinity, and `0 / 0` is NaN. */
  function PageCountOf(total: nat, limit: int): PageCount {
    if limit != 0 then Pages(CeilDiv(total, limit))
    else if total == 0 then NaN
    else Infinite
  }

  /** The pagination block of the response. */
  datatype Pagination = Pagination(page: int, limit: int, total: nat, pages: PageCount)

  function Paginate(page: int, limit: int, total: nat): Pagination {
    Pagination(page, limit, total, PageCountOf(total, limit))
  }

  /** A query parameter with its default, used only when it is absent (`undefined`). */
  function OrDefault(x: Option<int>, default: int): int {
    if x.Some? then x.value else default
  }

  /** `page = 1` */
  function PageOf(page: Option<int>): int {
    OrDefault(page, 1)
  }

  /** `limit = 10` */
  function LimitOf(limit: Option<int>): int {
    OrDefault(limit, 10)
  }

  /** `skip`: the rows of the earlier pages. */
  function Skip(page: int, limit: int): int {
    (page - 1) * limit
  }

  /** From page 1 on, `skip` is not negative. */
  lemma SkipNonNegative(page: int, limit: int)
    requires page >= 1 && limit >= 0
    ensures Skip(page, limit) >= 0
  {
    if limit >= 1 {
      MulMonotone(0, page - 1, limit);
    }
  }

  /** Page `page` of `limit` rows is the window of the matching exams after the earlier pages. */
  lemma PageWindow(all: seq<Exam>, w: ExamFilter, page: int, limit: int)
    requires page >= 1 && limit >= 1
    ensures Skip(page, limit) >= 0
    ensures GetExams(all, w, Some(page), Some(limit)).exams == Window(Matching(all, w), Skip(page, limit), limit)
  {
    SkipNonNegative(page, limit);
  }

  /** The windows of pages `page` and `page + 1` of any rows join into one window of twice the size. */
  lemma ConsecutiveWindows<T>(rows: seq<T>, page: int, limit: int)
    requires page >= 1 && limit >= 1 && Skip(page + 1, limit) <= |rows|
    ensures Skip(page, limit) >= 0 && Skip(page + 1, limit) == Skip(page, limit) + limit
    ensures Window(rows, Skip(page, limit), limit) + Window(rows, Skip(page + 1, limit), limit)
      == Window(rows, Skip(page, limit), limit + limit)
  {
    SkipNonNegative(page, limit);
    SkipNext(page, limit);
    WindowsAdjacent(rows, Skip(page, limit), limit);
  }

  /** The next page starts `limit` rows later. */
  lemma SkipNext(page: int, limit: int)
    ensures Skip(page + 1, limit) == Skip(page, limit) + limit
  {
    assert page * limit == (page - 1) * limit + limit;
  }

  /** One page of the listing, and the pagination block. */
  datatype ExamPage = ExamPage(exams: seq<Exam>, pagination: Pagination)

  /** Prisma's `skip`/`take` on a list: the rows from `skip` on, at most `take` of them. */
  function Window<T>(rows: seq<T>, skip: nat, take: nat): (r: seq<T>)
    ensures |r| <= take
  {
    var lo := if skip <= |rows| then skip else |rows|;
    var hi := if lo + take <= |rows| then lo + take else |rows|;
    rows[lo..hi]
  }

  /**
   * `getExams` over all exams, newest first. `page` and `limit` default to 1
   * and 10; the resulting `skip` must not be negative and `take` not
   * negative (see the README).
   */
  function GetExams(all: seq<Exam>, w: ExamFilter, page: Option<int>, limit: Option<int>): (r: ExamPage)
    requires LimitOf(limit) >= 0 && Skip(PageOf(page), LimitOf(limit)) >= 0
    ensures r.pagination.page == PageOf(page) && r.pagination.limit == LimitOf(limit)
    ensures |r.exams| <= LimitOf(limit)
    ensures forall k :: 0 <= k < |r.exams| ==> Matches(r.exams[k], w)
    ensures r.pagination.total == |Matching(all, w)|
    ensures LimitOf(limit) == 0 ==> r.exams == [] && !r.pagination.pages.Pages?
  {
    var matching := Matching(all, w);
    var exams := Window(matching, Skip(PageOf(page), LimitOf(limit)), LimitOf(limit));
    assert forall k :: 0 <= k < |exams| ==> exams[k] in matching;
    ExamPage(exams, Paginate(PageOf(page), LimitOf(limit), |matching|))
  }

  /** Without `page` and `limit` the listing is the first ten matching exams, as page 1 of 10. */
  lemma DefaultPage(all: seq<Exam>, w: ExamFilter)
    ensures var r := GetExams(all, w, None, None);
      r.pagination.page == 1 && r.pagination.limit == 10
      && r.exams == Matching(all, w)[..if |Matching(all, w)| < 10 then |Matching(all, w)| else 10]
  {
  }

  /** For a positive limit, `pages` is the least number of pages holding `total` rows. */
  lemma CeilDivSpec(total: nat, limit: int)
    requires limit >= 1
    ensures CeilDiv(total, limit) >= 0
    ensures CeilDiv(total, limit) * limit >= total
    ensures total > 0 ==> (CeilDiv(total, limit) - 1) * limit < total
    ensures total == 0 <==> CeilDiv(total, limit) == 0
  {
    var q := CeilDiv(total, limit);
    var m := total + limit - 1;
    assert m == limit * q + m % limit;
  }

  /** Multiplying by a positive limit keeps the order. */
  lemma MulMonotone(a: int, b: int, limit: int)
    requires a <= b && limit >= 1
    ensures a * limit <= b * limit
  {
    assert b * limit - a * limit == (b - a) * limit;
  }

  /** A page holds exams exactly when its number is at most `pages`. */
  lemma PageNonEmptyIff(all: seq<Exam>, w: ExamFilter, page: int, limit: int)
    requires page >= 1 && limit >= 1
    ensures GetExams(all, w, Some(page), Some(limit)).exams != [] <==>
      page <= GetExams(all, w, Some(page), Some(limit)).pagination.pages.count
  {
    SkipNonNegative(page, limit);
    var total := |Matching(all, w)|;
    var pages := CeilDiv(total, limit);
    CeilDivSpec(total, limit);
    if page - 1 < pages {
      MulMonotone(page - 1, pages - 1, limit);
    } else {
      MulMonotone(pages, page - 1, limit);
    }
  }

  /** Two consecutive windows are one run of rows. */
  lemma WindowsAdjacent<T>(rows: seq<T>, skip: nat, take: nat)
    requires skip + take <= |rows|
    ensures Window(rows, skip, take) + Window(rows, skip + take, take) == Window(rows, skip, take + take)
  {
    var hi := if skip + take + take <= |rows| then skip + take + take else |rows|;
    assert rows[skip..skip + take] + rows[skip + take..hi] == rows[skip..hi];
  }

  /** Two consecutive pages are consecutive runs of the matching exams. */
  lemma PagesAreConsecutive(all: seq<Exam>, w: ExamFilter, page: int, limit: int)
    requires page >= 1 && limit >= 1
    requires Skip(page + 1, limit) <= |Matching(all, w)|
    ensures GetExams(all, w, Some(page), Some(limit)).exams + GetExams(all, w, Some(page + 1), Some(limit)).exams
      == Window(Matching(all, w), Skip(page, limit), limit + limit)
  {
    PageWindow(all, w, page, limit);
    PageWindow(all, w, page + 1, limit);
    ConsecutiveWindows(Matching(all, w), page, limit);
  }

  /** With no condition every exam matches. */
  lemma {:induction false} EmptyFilterKeepsAll(all: seq<Exam>)
    ensures Matching(all, BuildFilter(None, None, None)) == all
  {
    if all != [] {
      EmptyFilterKeepsAll(all[..|all| - 1]);
      assert all[..|all| - 1] + [all[|all| - 1]] == all;
    }
  }

  /**
   * `?schoolId=0` is a non-empty, hence truthy, string: it adds the condition
   * `schoolId = 0`, so when no exam belongs to school 0 nothing is listed.
   */
  lemma ZeroSchoolIdIsACondition(all: seq<Exam>, status: Option<string>)
    ensures BuildFilter(Some("0"), Some(0), status).schoolId == Some(Some(0))
    ensures (forall e :: e in all ==> e.schoolId != 0) ==> Matching(all, BuildFilter(Some("0"), Some(0), status)) == []
  {
  }

  /** A non-empty school id that converts to NaN lists no exam. */
  lemma NaNSchoolIdListsNothing(all: seq<Exam>, schoolId: string, status: Option<string>)
    requires schoolId != ""
    ensures Matching(all, BuildFilter(Some(schoolId), None, status)) == []
  {
  }

  // ------------------------------------------------------------ approve / status

  /** The statuses `updateExamStatus` accepts. */
  predicate IsValidStatus(status: string) {
    status == "PENDING" || status == "APPROVED" || status == "LIVE" || status == "CLOSED"
  }

  /** A stored notification about an exam. */
  datatype ExamNotification = ExamNotification(examId: string, message: string)

  /** The message of the approval notification, quoting the title. */
  function ApprovalMessage(title: string): (m: string)
    ensures |m| == |title| + 42
    ensures m[..6] == "Exam \"" && m[6..6 + |title|] == title && m[6 + |title|] == '"'
  {
    "Exam \"" + title + "\" has been approved and is now live."
  }

  /** The outcome of a store update: the updated exam, a thrown message, or Prisma's missing-record error. */
  datatype UpdateOutcome = Updated(exam: Exam) | Thrown(message: string) | RecordNotFound

  /** The exam table and the notification table. */
  class ExamStore {
    var exams: map<string, Exam>
    var notifications: seq<ExamNotification>

    /** Every stored exam is filed under its own id and has a whitelisted status. */
    predicate Valid()
      reads this
    {
      forall id :: id in exams ==> exams[id].id == id && IsValidStatus(exams[id].status)
    }

    constructor (initial: map<string, Exam>)
      ensures exams == initial && notifications == []
    {
      exams := initial;
      notifications := [];
    }

    /** `approveExam`: "Exam not found", or status APPROVED and exactly one notification quoting the title. */
    method ApproveExam(id: string) returns (r: UpdateOutcome)
      modifies this
      ensures id !in old(exams) ==>
        r == Thrown("Exam not found") && exams == old(exams) && notifications == old(notifications)
      ensures id in old(exams) ==>
        r == Updated(old(exams)[id].(status := "APPROVED"))
        && exams == old(exams)[id := r.exam]
        && notifications == old(notifications) + [ExamNotification(id, ApprovalMessage(old(exams)[id].examTitle))]
      ensures old(Valid()) ==> Valid()
    {
      if id !in exams {
        return Thrown("Exam not found");
      }
      var exam := exams[id];
      var updated := exam.(status := "APPROVED");
      exams := exams[id := updated];
      notifications := notifications + [ExamNotification(id, ApprovalMessage(exam.examTitle))];
      r := Updated(updated);
    }

    /** `updateExamStatus`: "Invalid status" outside the whitelist, else the status is written. */
    method UpdateExamStatus(id: string, status: string) returns (r: UpdateOutcome)
      modifies this
      ensures !IsValidStatus(status) ==>
        r == Thrown("Invalid status") && exams == old(exams) && notifications == old(notifications)
      ensures IsValidStatus(status) && id !in old(exams) ==>
        r == RecordNotFound && exams == old(exams) && notifications == old(notifications)
      ensures IsValidStatus(status) && id in old(exams) ==>
        r == Updated(old(exams)[id].(status := status)) && exams == old(exams)[id := r.exam]
        && notifications == old(notifications)
      ensures old(Valid()) ==> Valid()
    {
      if !IsValidStatus(status) {
        return Thrown("Invalid status");
      }
      if id !in exams {
        return RecordNotFound;
      }
      var updated := exams[id].(status := status);
      exams := exams[id := updated];
      r := Updated(updated);
    }
  }

  /** Exactly four statuses pass the whitelist; anything else, including lower case, is rejected. */
  lemma StatusWhitelist()
    ensures IsValidStatus("PENDING") && IsValidStatus("APPROVED")
    ensures IsValidStatus("LIVE") && IsValidStatus("CLOSED")
    ensures !IsValidStatus("approved") && !IsValidStatus("DRAFT") && !IsValidStatus("")
  {
  }
}
