/**
 * The student controller (src/controllers/studentController.ts): its own
 * `generateRollNumber`, which reads the serial after the last `-` of the most
 * recent student's roll number, and `createStudent`'s decisions. The database
 * lookups (the last student, the school) and the clock's year are parameters;
 * the created row is the returned record.
 */
module StudentController {
  import opened Text

  // ------------------------------------------------------ generateRollNumber

  /**
   * `lastNumber`: 0 without a previous student, otherwise `parseInt` of the
   * text after the last `-` (an empty tail reads as `"0"`); `None` is NaN.
   */
  function LastNumber(lastRoll: Option<string>): Option<int> {
    if lastRoll.None? then Some(0) else TailNumber(LastSegment(lastRoll.value, '-'))
  }

  /** `parseInt(tail || "0", 10)` */
  function TailNumber(tail: string): Option<int> {
    ParseInt(if tail == "" then "0" else tail)
  }

  /** `x + 1` on a number or NaN: NaN stays NaN. */
  function Increment(x: Option<int>): Option<int> {
    if x.Some? then Some(x.value + 1) else None
  }

  /** `nextNumber = lastNumber + 1` */
  function NextNumber(lastRoll: Option<string>): Option<int> {
    Increment(LastNumber(lastRoll))
  }

  /** The tail holds no `-`, so the last number is never negative and the next is at least 1. */
  lemma NextNumberPositive(lastRoll: Option<string>)
    ensures LastNumber(lastRoll).Some? ==> LastNumber(lastRoll).value >= 0
    ensures NextNumber(lastRoll).Some? ==> NextNumber(lastRoll).value >= 1
  {
    if lastRoll.Some? {
      var tail := LastSegment(lastRoll.value, '-');
      if TailNumber(tail).Some? {
        ParseIntNonNegative(if tail == "" then "0" else tail);
      }
    }
  }

  /** `nextNumber.toString()`, where NaN prints as `NaN`. */
  function NumberText(n: Option<int>): string {
    if n.Some? then NumberToString(n.value) else "NaN"
  }

  /** `formattedNumber`: the serial padded with zeros to at least three characters. */
  function Formatted(n: Option<int>): string {
    PadStart(NumberText(n), 3, '0')
  }

  /** `adx-${currentYear}-${formattedNumber}` for the year's text and the next serial. */
  function RollOf(yearText: string, next: Option<int>): string {
    "adx-" + yearText + "-" + Formatted(next)
  }

  /**
   * The identifier `generateRollNumber` returns: `adx-<year>-` followed by
   * the serial, which RoundTrip reads back.
   */
  function GenerateRollNumber(year: int, lastRoll: Option<string>): (r: string)
    ensures var head := "adx-" + NumberToString(year) + "-";
      |head| + 3 <= |r| && r[..|head|] == head
  {
    RollOf(NumberToString(year), NextNumber(lastRoll))
  }

  // ------------------------------------------------------------ createStudent

  /** The fields of the request body the handler reads; `None` is an absent field. */
  datatype StudentInput = StudentInput(
    admissionNo: Option<string>,
    firstName: Option<string>,
    lastName: Option<string>,
    gender: Option<string>,
    email: Option<string>,
    schoolId: Option<int>,
    password: Option<string>,
    contactNumber: Option<string>,
    dob: Option<string>,
    academicYear: Option<string>,
    level: Option<string>)

  /** The stored school fields the handler uses. */
  datatype School = School(schoolType: string, subdomain: Option<string>)

  /** The default performance record: no exams, average 0, never updated. */
  datatype Performance = Performance(exams: seq<string>, averageScore: int, lastUpdated: Option<string>)

  /** The row `prisma.student.create` writes (the password hash is not modelled). */
  datatype StudentRecord = StudentRecord(
    rollNumber: string,
    admissionNo: string,
    firstName: string,
    lastName: string,
    gender: string,
    email: string,
    contactNumber: Option<string>,
    dob: Option<string>,
    academicYear: Option<string>,
    level: Option<string>,
    term: Option<string>,
    semester: Option<string>,
    schoolId: int,
    performance: Performance,
    approvalStatus: string,
    approvedBy: Option<string>,
    approvedAt: Option<string>,
    subdomain: Option<string>)

  datatype CreateOutcome = Rejected(status: nat, message: string) | Created(student: StudentRecord)

  /** The seven fields whose absence gives 400. */
  predicate HasRequiredFields(input: StudentInput) {
    Truthy(input.admissionNo) && Truthy(input.firstName) && Truthy(input.lastName)
    && Truthy(input.gender) && Truthy(input.email) && TruthyNumber(input.schoolId)
    && Truthy(input.password)
  }

  /** `term`: "First Term" for a high school only. */
  function TermFor(schoolType: string): Option<string> {
    if schoolType == "HIGH_SCHOOL" then Some("First Term") else None
  }

  /** `semester`: "First Semester" for a tertiary school only. */
  function SemesterFor(schoolType: string): Option<string> {
    if schoolType == "HIGH_SCHOOL" then None
    else if schoolType == "TERTIARY" then Some("First Semester")
    else None
  }

  /**
   * `createStudent`: 400 when a required field is missing, 404 when the school
   * is unknown, otherwise the created pending student.
   */
  function CreateStudent(input: StudentInput, schools: map<int, School>,
                         lastRoll: Option<string>, year: int): (r: CreateOutcome)
    ensures r == Rejected(400, "Missing required fields") <==> !HasRequiredFields(input)
    ensures r == Rejected(404, "School not found") <==>
      HasRequiredFields(input) && input.schoolId.value !in schools
    ensures r.Created? <==> HasRequiredFields(input) && input.schoolId.value in schools
    ensures r.Created? ==>
      var s := r.student;
      s.rollNumber == GenerateRollNumber(year, lastRoll)
      && s.approvalStatus == "pending" && s.approvedBy.None? && s.approvedAt.None?
      && !(s.term.Some? && s.semester.Some?)
      && s.schoolId == input.schoolId.value
      && s.subdomain == schools[input.schoolId.value].subdomain
      && s.performance == Performance([], 0, None)
    ensures r.Created? ==>
      var s := r.student;
      var schoolType := schools[input.schoolId.value].schoolType;
      s.term == TermFor(schoolType) && s.semester == SemesterFor(schoolType)
    ensures r.Created? ==>
      var s := r.student;
      Some(s.admissionNo) == input.admissionNo && Some(s.firstName) == input.firstName
      && Some(s.lastName) == input.lastName && Some(s.gender) == input.gender
      && Some(s.email) == input.email && s.contactNumber == input.contactNumber
      && s.academicYear == input.academicYear && s.level == input.level
    ensures r.Created? ==> r.student.dob == if Truthy(input.dob) then input.dob else None
  {
    if !HasRequiredFields(input) then Rejected(400, "Missing required fields")
    else if input.schoolId.value !in schools then Rejected(404, "School not found")
    else
      var school := schools[input.schoolId.value];
      Created(StudentRecord(
        GenerateRollNumber(year, lastRoll),
        input.admissionNo.value, input.firstName.value, input.lastName.value,
        input.gender.value, input.email.value,
        input.contactNumber,
        if Truthy(input.dob) then input.dob else None,
        input.academicYear, input.level,
        TermFor(school.schoolType), SemesterFor(school.schoolType),
        input.schoolId.value,
        Performance([], 0, None),
        "pending", None, None,
        school.subdomain))
  }

  // ------------------------------------------------------------ properties

  /** With no previous student the identifier ends in `-001`. */
  lemma NoPreviousStudent(year: int)
    ensures GenerateRollNumber(year, None) == "adx-" + NumberToString(year) + "-001"
  {
    FirstRollOf(NumberToString(year));
  }

  /** A previous roll number ending in `-` (or empty) counts as serial 0. */
  lemma EmptyTailCountsAsZero(year: int, prefix: string)
    ensures GenerateRollNumber(year, Some(prefix + "-")) == "adx-" + NumberToString(year) + "-001"
    ensures GenerateRollNumber(year, Some("")) == "adx-" + NumberToString(year) + "-001"
  {
    EmptyTailNext(prefix);
    FirstRollOf(NumberToString(year));
  }

  /** The serial 1 is written `001`. */
  lemma FirstRollOf(yearText: string)
    ensures RollOf(yearText, Some(1)) == "adx-" + yearText + "-001"
  {
    assert Dec(1) == "1";
    assert Formatted(Some(1)) == "001";
    var head := "adx-" + yearText;
    assert head + "-" + "001" == head + "-001";
  }

  /** An empty tail reads as `"0"`, so the next serial is 1. */
  lemma EmptyTailNext(prefix: string)
    ensures NextNumber(Some(prefix + "-")) == Some(1)
    ensures NextNumber(Some("")) == Some(1)
  {
    LastSegmentOfSuffix(prefix, '-', "");
    assert prefix + "-" == prefix + ['-'] + "";
    ParseIntOfDigits("0");
  }

  /** The previous serial is the decimal value of the digits after the last `-`. */
  lemma PreviousSerial(lastRoll: string)
    requires var tail := LastSegment(lastRoll, '-'); tail != "" && AllDigits(tail)
    ensures NextNumber(Some(lastRoll)).Some?
    ensures NextNumber(Some(lastRoll)).value == DigitsValue(LastSegment(lastRoll, '-')) + 1
  {
    ParseIntOfDigits(LastSegment(lastRoll, '-'));
  }

  /** `parseInt("abc")` is NaN. */
  lemma NonNumericTailIsNaN()
    ensures TailNumber("abc") == None
  {
    assert TrimStart("abc") == "abc";
    assert LeadingDigits("abc") == [];
  }

  /** A tail with no leading digit is NaN, and NaN is printed unpadded. */
  lemma NonNumericTail(year: int)
    ensures GenerateRollNumber(year, Some("adx-2025-abc")) == "adx-" + NumberToString(year) + "-NaN"
  {
    assert NextNumber(Some("adx-2025-abc")) == None by {
      assert "adx-2025-abc" == "adx-2025" + ['-'] + "abc";
      LastSegmentOfSuffix("adx-2025", '-', "abc");
      NonNumericTailIsNaN();
    }
    NaNRollOf(NumberToString(year));
  }

  /** NaN is written as it is, without padding. */
  lemma NaNRollOf(yearText: string)
    ensures RollOf(yearText, None) == "adx-" + yearText + "-NaN"
  {
    assert Formatted(None) == "NaN";
    var head := "adx-" + yearText;
    assert head + "-" + "NaN" == head + "-NaN";
  }

  /** A formatted serial holds no `-` and reads back as itself; NaN reads back as NaN. */
  lemma FormattedReadsBack(n: Option<int>)
    requires n.Some? ==> n.value >= 0
    ensures '-' !in Formatted(n)
    ensures TailNumber(Formatted(n)) == n
  {
    if n.Some? {
      ZeroPadValue(Dec(n.value), 3);
      ParseIntOfDigits(Formatted(n));
    } else {
      assert Formatted(n) == "NaN";
      assert TrimStart("NaN") == "NaN";
      assert LeadingDigits("NaN") == [];
    }
  }

  /** The text after the last `-` of an identifier is its formatted serial. */
  lemma RollOfTail(yearText: string, n: Option<int>)
    requires n.Some? ==> n.value >= 0
    ensures LastSegment(RollOf(yearText, n), '-') == Formatted(n)
  {
    FormattedReadsBack(n);
    assert RollOf(yearText, n) == ("adx-" + yearText) + ['-'] + Formatted(n);
    LastSegmentOfSuffix("adx-" + yearText, '-', Formatted(n));
  }

  /**
   * Round trip: feeding a generated identifier back in as the previous roll
   * number gives the serial plus one; a NaN serial stays NaN.
   */
  lemma RoundTrip(year: int, lastRoll: Option<string>)
    ensures NextNumber(lastRoll).Some? ==>
      NextNumber(Some(GenerateRollNumber(year, lastRoll))).Some? &&
      NextNumber(Some(GenerateRollNumber(year, lastRoll))).value == NextNumber(lastRoll).value + 1
    ensures NextNumber(lastRoll).None? ==>
      NextNumber(Some(GenerateRollNumber(year, lastRoll))).None?
  {
    var n := NextNumber(lastRoll);
    NextNumberPositive(lastRoll);
    RollOfTail(NumberToString(year), n);
    FormattedReadsBack(n);
  }

  /** The serial strictly increases along a chain of generated identifiers. */
  lemma SerialIncreases(year: int, lastRoll: Option<string>)
    requires NextNumber(lastRoll).Some?
    ensures NextNumber(Some(GenerateRollNumber(year, lastRoll))).Some?
    ensures NextNumber(Some(GenerateRollNumber(year, lastRoll))).value > NextNumber(lastRoll).value
  {
    RoundTrip(year, lastRoll);
  }

  /** Term and semester follow the school type and are never both set. */
  lemma TermSemesterRule(schoolType: string)
    ensures schoolType == "HIGH_SCHOOL" ==>
      TermFor(schoolType) == Some("First Term") && SemesterFor(schoolType).None?
    ensures schoolType == "TERTIARY" ==>
      TermFor(schoolType).None? && SemesterFor(schoolType) == Some("First Semester")
    ensures schoolType != "HIGH_SCHOOL" && schoolType != "TERTIARY" ==>
      TermFor(schoolType).None? && SemesterFor(schoolType).None?
  {
  }
}
