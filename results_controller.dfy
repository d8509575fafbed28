/**
 * `getStudentResult` (src/controllers/resultsController.ts): a result is
 * released against an access code whose use counter is checked and then
 * incremented. The access-code table and the result table are fields of a
 * store; `findFirst` returns the first row, in table order, matching its
 * filter, and a filter field that is `undefined` in the request places no
 * condition (Prisma ignores it).
 */
module ResultsController {
  import opened Text

  /** A stored access code with the admission number of its student. */
  datatype AccessCode = AccessCode(id: int, code: string, admissionNo: string, usedCount: int, maxUses: int)

  /** A stored result row, identified by its five key fields. */
  datatype ResultRow = ResultRow(
    id: int, admissionNo: string, rollNumber: string, resultType: string,
    semester: string, examYear: string)

  /** The request body; `None` is an absent (undefined) field. */
  datatype ResultQuery = ResultQuery(
    admissionNo: Option<string>, rollNumber: Option<string>, resultType: Option<string>,
    semester: Option<string>, examYear: Option<string>, accessCode: Option<string>)

  datatype Response = Error(status: nat, message: string) | Found(row: ResultRow)

  /** One equality condition of a Prisma filter; an undefined value places no condition. */
  predicate Condition(wanted: Option<string>, actual: string) {
    wanted.None? || wanted.value == actual
  }

  predicate CodeMatches(c: AccessCode, q: ResultQuery) {
    Condition(q.accessCode, c.code) && Condition(q.admissionNo, c.admissionNo)
  }

  predicate RowMatches(r: ResultRow, q: ResultQuery) {
    Condition(q.admissionNo, r.admissionNo) && Condition(q.rollNumber, r.rollNumber)
    && Condition(q.resultType, r.resultType) && Condition(q.semester, r.semester)
    && Condition(q.examYear, r.examYear)
  }

  /** `resultAccessCode.findFirst`: the position of the first matching code. */
  function FirstCode(codes: seq<AccessCode>, q: ResultQuery): (k: Option<nat>)
    ensures k.Some? ==>
      (k.value < |codes| && CodeMatches(codes[k.value], q)
       && forall j :: 0 <= j < k.value ==> !CodeMatches(codes[j], q))
    ensures k.None? ==> forall j :: 0 <= j < |codes| ==> !CodeMatches(codes[j], q)
  {
    if codes == [] then None
    else if CodeMatches(codes[0], q) then Some(0)
    else
      var rest := FirstCode(codes[1..], q);
      if rest.Some? then Some(rest.value + 1) else None
  }

  /** `result.findFirst`: the first row matching the five fields. */
  function FirstRow(rows: seq<ResultRow>, q: ResultQuery): (r: Option<ResultRow>)
    ensures r.Some? ==>
      (RowMatches(r.value, q)
       && exists k :: 0 <= k < |rows| && rows[k] == r.value && forall j :: 0 <= j < k ==> !RowMatches(rows[j], q))
    ensures r.None? ==> forall j :: 0 <= j < |rows| ==> !RowMatches(rows[j], q)
  {
    if rows == [] then None
    else if RowMatches(rows[0], q) then Some(rows[0])
    else
      var rest := FirstRow(rows[1..], q);
      if rest.Some? then
        var k :| 0 <= k < |rows[1..]| && rows[1..][k] == rest.value
          && forall j :: 0 <= j < k ==> !RowMatches(rows[1..][j], q);
        assert rows[k + 1] == rest.value;
        Some(rest.value)
      else None
  }

  /** The response and the new access-code table for one request. */
  function Lookup(codes: seq<AccessCode>, rows: seq<ResultRow>, q: ResultQuery): (r: (Response, seq<AccessCode>))
    ensures |r.1| == |codes|
    ensures r.0.Error? ==> r.1 == codes
    ensures r.0.Found? ==> RowMatches(r.0.row, q) && r.0.row in rows
  {
    var k := FirstCode(codes, q);
    if k.None? then (Error(400, "Invalid code"), codes)
    else
      var entry := codes[k.value];
      if entry.usedCount >= entry.maxUses then (Error(400, "Code already used 3 times"), codes)
      else
        var row := FirstRow(rows, q);
        if row.None? then (Error(404, "Result not found"), codes)
        else (Found(row.value), codes[k.value := entry.(usedCount := entry.usedCount + 1)])
  }

  /** The access-code and result tables. */
  class ResultStore {
    var codes: seq<AccessCode>
    var rows: seq<ResultRow>

    constructor (codes0: seq<AccessCode>, rows0: seq<ResultRow>)
      ensures codes == codes0 && rows == rows0
    {
      codes := codes0;
      rows := rows0;
    }

    /** `getStudentResult`: check the code, fetch the row, then count the use. */
    method GetStudentResult(q: ResultQuery) returns (resp: Response)
      modifies this
      ensures (resp, codes) == Lookup(old(codes), old(rows), q)
      ensures rows == old(rows)
    {
      var k := FirstCode(codes, q);
      if k.None? {
        return Error(400, "Invalid code");
      }
      var entry := codes[k.value];
      if entry.usedCount >= entry.maxUses {
        return Error(400, "Code already used 3 times");
      }
      var row := FirstRow(rows, q);
      if row.None? {
        return Error(404, "Result not found");
      }
      codes := codes[k.value := entry.(usedCount := entry.usedCount + 1)];
      resp := Found(row.value);
    }
  }

  // ------------------------------------------------------------ properties

  /** Every counter within its limit. */
  predicate WithinLimits(codes: seq<AccessCode>) {
    forall k :: 0 <= k < |codes| ==> codes[k].usedCount <= codes[k].maxUses
  }

  /** Only a released result changes the table, and then exactly one counter goes up by one. */
  lemma CounterOnlyOnSuccess(codes: seq<AccessCode>, rows: seq<ResultRow>, q: ResultQuery)
    ensures var (resp, codes') := Lookup(codes, rows, q);
      (!resp.Found? ==> codes' == codes)
      && (resp.Found? ==>
            exists k :: 0 <= k < |codes| && CodeMatches(codes[k], q)
              && codes[k].usedCount < codes[k].maxUses
              && codes' == codes[k := codes[k].(usedCount := codes[k].usedCount + 1)])
  {
    var k := FirstCode(codes, q);
    if k.Some? {
      var (resp, codes') := Lookup(codes, rows, q);
      if resp.Found? {
        assert codes' == codes[k.value := codes[k.value].(usedCount := codes[k.value].usedCount + 1)];
      }
    }
  }

  /** The error cases and their order: no code, an exhausted code, then no result. */
  lemma ErrorCases(codes: seq<AccessCode>, rows: seq<ResultRow>, q: ResultQuery)
    ensures var resp := Lookup(codes, rows, q).0;
      (resp == Error(400, "Invalid code") <==> forall j :: 0 <= j < |codes| ==> !CodeMatches(codes[j], q))
      && (resp == Error(400, "Code already used 3 times") <==>
            FirstCode(codes, q).Some? && codes[FirstCode(codes, q).value].usedCount >= codes[FirstCode(codes, q).value].maxUses)
      && (resp == Error(404, "Result not found") <==>
            FirstCode(codes, q).Some? && codes[FirstCode(codes, q).value].usedCount < codes[FirstCode(codes, q).value].maxUses
            && forall j :: 0 <= j < |rows| ==> !RowMatches(rows[j], q))
  {
    var k := FirstCode(codes, q);
    if k.None? && |codes| > 0 {
      assert !CodeMatches(codes[0], q);
    }
  }

  /** A released row matches every field the request gives. */
  lemma ReleasedRowMatches(codes: seq<AccessCode>, rows: seq<ResultRow>, q: ResultQuery)
    requires Lookup(codes, rows, q).0.Found?
    ensures var row := Lookup(codes, rows, q).0.row;
      row in rows && RowMatches(row, q)
      && (q.admissionNo.Some? ==> row.admissionNo == q.admissionNo.value)
      && (q.rollNumber.Some? ==> row.rollNumber == q.rollNumber.value)
      && (q.resultType.Some? ==> row.resultType == q.resultType.value)
      && (q.semester.Some? ==> row.semester == q.semester.value)
      && (q.examYear.Some? ==> row.examYear == q.examYear.value)
  {
  }

  /** One request keeps every counter within its limit. */
  lemma LimitsKept(codes: seq<AccessCode>, rows: seq<ResultRow>, q: ResultQuery)
    requires WithinLimits(codes)
    ensures WithinLimits(Lookup(codes, rows, q).1)
  {
  }

  /** The responses and the final table after a sequence of requests. */
  function Run(codes: seq<AccessCode>, rows: seq<ResultRow>, qs: seq<ResultQuery>): (seq<Response>, seq<AccessCode>)
    decreases |qs|
  {
    if qs == [] then ([], codes)
    else
      var (resp, codes') := Lookup(codes, rows, qs[0]);
      var (rest, final) := Run(codes', rows, qs[1..]);
      ([resp] + rest, final)
  }

  /** The sum of all counters. */
  function TotalUses(codes: seq<AccessCode>): int {
    if codes == [] then 0 else codes[0].usedCount + TotalUses(codes[1..])
  }

  /** Number of released results among the responses. */
  function Released(resps: seq<Response>): nat {
    if resps == [] then 0 else (if resps[0].Found? then 1 else 0) + Released(resps[1..])
  }

  lemma {:induction false} TotalUsesUpdate(codes: seq<AccessCode>, k: nat, c: AccessCode)
    requires k < |codes|
    ensures TotalUses(codes[k := c]) == TotalUses(codes) - codes[k].usedCount + c.usedCount
  {
    if k > 0 {
      assert codes[k := c][1..] == codes[1..][k - 1 := c];
      TotalUsesUpdate(codes[1..], k - 1, c);
    }
  }

  /**
   * Over any sequence of requests the counters stay within their limits and
   * grow by exactly the number of results released.
   */
  lemma {:induction false} RunCountsUses(codes: seq<AccessCode>, rows: seq<ResultRow>, qs: seq<ResultQuery>)
    requires WithinLimits(codes)
    ensures WithinLimits(Run(codes, rows, qs).1)
    ensures TotalUses(Run(codes, rows, qs).1) == TotalUses(codes) + Released(Run(codes, rows, qs).0)
    decreases |qs|
  {
    if qs != [] {
      var (resp, codes') := Lookup(codes, rows, qs[0]);
      LimitsKept(codes, rows, qs[0]);
      CounterOnlyOnSuccess(codes, rows, qs[0]);
      if resp.Found? {
        var k :| 0 <= k < |codes| && CodeMatches(codes[k], qs[0])
          && codes[k].usedCount < codes[k].maxUses
          && codes' == codes[k := codes[k].(usedCount := codes[k].usedCount + 1)];
        TotalUsesUpdate(codes, k, codes[k].(usedCount := codes[k].usedCount + 1));
      }
      RunCountsUses(codes', rows, qs[1..]);
      var (rest, final) := Run(codes', rows, qs[1..]);
      assert Run(codes, rows, qs) == ([resp] + rest, final);
      assert ([resp] + rest)[1..] == rest;
    }
  }

  // ------------------------------------------------------------ absent fields

  /**
   * As written: a request that gives neither the code nor the admission
   * number matches the first stored code, and one that gives none of the
   * result fields matches the first stored result.
   */
  lemma EmptyRequestReleasesFirstRow(codes: seq<AccessCode>, rows: seq<ResultRow>)
    requires codes != [] && codes[0].usedCount < codes[0].maxUses && rows != []
    ensures Lookup(codes, rows, ResultQuery(None, None, None, None, None, None)).0 == Found(rows[0])
  {
  }

  /** An absent field places no condition; the corrected condition requires the field. */
  predicate StrictCondition(wanted: Option<string>, actual: string) {
    wanted.Some? && wanted.value == actual
  }

  predicate StrictCodeMatches(c: AccessCode, q: ResultQuery) {
    StrictCondition(q.accessCode, c.code) && StrictCondition(q.admissionNo, c.admissionNo)
  }

  predicate StrictRowMatches(r: ResultRow, q: ResultQuery) {
    StrictCondition(q.admissionNo, r.admissionNo) && StrictCondition(q.rollNumber, r.rollNumber)
    && StrictCondition(q.resultType, r.resultType) && StrictCondition(q.semester, r.semester)
    && StrictCondition(q.examYear, r.examYear)
  }

  /** Corrected lookup: every key field of the request must be given and equal. */
  function StrictLookup(codes: seq<AccessCode>, rows: seq<ResultRow>, q: ResultQuery): (Response, seq<AccessCode>) {
    if q.accessCode.None? || q.admissionNo.None? || q.rollNumber.None? || q.resultType.None?
       || q.semester.None? || q.examYear.None?
    then (Error(400, "Invalid code"), codes)
    else Lookup(codes, rows, q)
  }

  /**
   * Corrected: a released row is keyed exactly by the request, and the code
   * counted is the requested code of the requesting student.
   */
  lemma StrictLookupReleasesOnlyExactMatch(codes: seq<AccessCode>, rows: seq<ResultRow>, q: ResultQuery)
    requires StrictLookup(codes, rows, q).0.Found?
    ensures StrictRowMatches(StrictLookup(codes, rows, q).0.row, q)
    ensures exists k ::
      (0 <= k < |codes| && StrictCodeMatches(codes[k], q)
       && StrictLookup(codes, rows, q).1 == codes[k := codes[k].(usedCount := codes[k].usedCount + 1)])
  {
    CounterOnlyOnSuccess(codes, rows, q);
  }

  /** Corrected: a request missing its access code is refused and nothing is counted. */
  lemma StrictLookupRefusesMissingCode(codes: seq<AccessCode>, rows: seq<ResultRow>, q: ResultQuery)
    requires q.accessCode.None?
    ensures StrictLookup(codes, rows, q) == (Error(400, "Invalid code"), codes)
  {
  }
}
