/**
 * Exam helpers (src/modules/exam/examUtils.ts): the required-field check of an
 * exam payload and the exam-code format. The clock's year and the random
 * four-digit number are parameters.
 */
module ExamUtils {
  import opened Text

  /** The payload fields the check reads; `None` is an absent field. */
  datatype ExamFields = ExamFields(
    examTitle: Option<string>,
    startDate: Option<string>,
    endDate: Option<string>,
    duration: Option<int>,
    schoolId: Option<int>)

  /** The messages, in the order the fields are checked. */
  const RequiredMessages: seq<string> := [
    "Exam title is required",
    "Start date is required",
    "End date is required",
    "Duration is required",
    "School ID is required"
  ]

  /** Which of the five checked fields are falsy, in checking order. */
  function Missing(data: ExamFields): (m: seq<bool>)
    ensures |m| == |RequiredMessages|
  {
    [!Truthy(data.examTitle), !Truthy(data.startDate), !Truthy(data.endDate),
     !TruthyNumber(data.duration), !TruthyNumber(data.schoolId)]
  }

  /** The elements of `xs` whose flag is set, in order. */
  function Select<T>(xs: seq<T>, keep: seq<bool>): seq<T>
    requires |xs| == |keep|
  {
    if xs == [] then []
    else
      var n := |xs| - 1;
      Select(xs[..n], keep[..n]) + (if keep[n] then [xs[n]] else [])
  }

  /** Number of set flags. */
  function CountTrue(keep: seq<bool>): nat {
    if keep == [] then 0
    else CountTrue(keep[..|keep| - 1]) + (if keep[|keep| - 1] then 1 else 0)
  }

  /** The errors `validateExamData` reports: the message of each missing field. */
  function ValidationErrors(data: ExamFields): seq<string> {
    Select(RequiredMessages, Missing(data))
  }

  /** `validateExamData`: one push per falsy field, in the fixed order. */
  method ValidateExamData(data: ExamFields) returns (errors: seq<string>)
    ensures errors == ValidationErrors(data)
  {
    ghost var m := Missing(data);
    ghost var msgs := RequiredMessages;
    errors := [];
    assert errors == Select(msgs[..0], m[..0]);
    ghost var before := errors;
    if !Truthy(data.examTitle) {
      errors := errors + ["Exam title is required"];
    }
    SelectExtend(msgs, m, 0, before, errors);
    before := errors;
    if !Truthy(data.startDate) {
      errors := errors + ["Start date is required"];
    }
    SelectExtend(msgs, m, 1, before, errors);
    before := errors;
    if !Truthy(data.endDate) {
      errors := errors + ["End date is required"];
    }
    SelectExtend(msgs, m, 2, before, errors);
    before := errors;
    if !TruthyNumber(data.duration) {
      errors := errors + ["Duration is required"];
    }
    SelectExtend(msgs, m, 3, before, errors);
    before := errors;
    if !TruthyNumber(data.schoolId) {
      errors := errors + ["School ID is required"];
    }
    SelectExtend(msgs, m, 4, before, errors);
    assert msgs[..5] == msgs && m[..5] == m;
  }

  /** Pushing the next message when its field is missing extends the selected prefix by one position. */
  lemma SelectExtend<T>(xs: seq<T>, keep: seq<bool>, n: nat, before: seq<T>, after: seq<T>)
    requires |xs| == |keep| && n < |xs|
    requires before == Select(xs[..n], keep[..n])
    requires after == before + (if keep[n] then [xs[n]] else [])
    ensures after == Select(xs[..n + 1], keep[..n + 1])
  {
    SelectStep(xs, keep, n);
  }

  /** Extending the prefix by one position adds that element when it is flagged. */
  lemma SelectStep<T>(xs: seq<T>, keep: seq<bool>, n: nat)
    requires |xs| == |keep| && n < |xs|
    ensures Select(xs[..n + 1], keep[..n + 1])
      == Select(xs[..n], keep[..n]) + (if keep[n] then [xs[n]] else [])
  {
    assert xs[..n + 1][..n] == xs[..n];
    assert keep[..n + 1][..n] == keep[..n];
  }

  // ------------------------------------------------------------ Select

  /** An element is selected exactly when some position holding it is flagged. */
  lemma {:induction false} SelectMembers<T>(xs: seq<T>, keep: seq<bool>, x: T)
    requires |xs| == |keep|
    ensures x in Select(xs, keep) <==> exists k :: 0 <= k < |xs| && keep[k] && xs[k] == x
  {
    if xs != [] {
      var n := |xs| - 1;
      SelectMembers(xs[..n], keep[..n], x);
      if x in Select(xs, keep) && x !in Select(xs[..n], keep[..n]) {
        assert keep[n] && xs[n] == x;
      }
      if exists k :: 0 <= k < |xs| && keep[k] && xs[k] == x {
        var k :| 0 <= k < |xs| && keep[k] && xs[k] == x;
        if k < n {
          assert xs[..n][k] == x && keep[..n][k];
        }
      }
    }
  }

  /** One element per set flag. */
  lemma {:induction false} SelectLength<T>(xs: seq<T>, keep: seq<bool>)
    requires |xs| == |keep|
    ensures |Select(xs, keep)| == CountTrue(keep) <= |keep|
  {
    if xs != [] {
      SelectLength(xs[..|xs| - 1], keep[..|keep| - 1]);
    }
  }

  /** Nothing is selected exactly when no flag is set. */
  lemma {:induction false} SelectEmpty<T>(xs: seq<T>, keep: seq<bool>)
    requires |xs| == |keep|
    ensures Select(xs, keep) == [] <==> forall k :: 0 <= k < |keep| ==> !keep[k]
  {
    if xs != [] {
      var n := |xs| - 1;
      SelectEmpty(xs[..n], keep[..n]);
      if Select(xs, keep) == [] {
        assert forall k :: 0 <= k < n ==> keep[k] == keep[..n][k];
      }
      if forall k :: 0 <= k < |keep| ==> !keep[k] {
        assert forall k :: 0 <= k < n ==> !keep[..n][k];
      }
    }
  }

  /** Selection keeps the relative order: it distributes over concatenation. */
  lemma {:induction false} SelectAppend<T>(xs: seq<T>, ys: seq<T>, kx: seq<bool>, ky: seq<bool>)
    requires |xs| == |kx| && |ys| == |ky|
    ensures Select(xs + ys, kx + ky) == Select(xs, kx) + Select(ys, ky)
    decreases |ys|
  {
    if ys != [] {
      var n := |ys| - 1;
      assert (xs + ys)[..|xs + ys| - 1] == xs + ys[..n];
      assert (kx + ky)[..|kx + ky| - 1] == kx + ky[..n];
      SelectAppend(xs, ys[..n], kx, ky[..n]);
    } else {
      assert xs + ys == xs && kx + ky == kx;
    }
  }

  // ------------------------------------------------------------ validation properties

  /** No error exactly when all five fields are truthy. */
  lemma NoErrorsIffComplete(data: ExamFields)
    ensures ValidationErrors(data) == [] <==>
      Truthy(data.examTitle) && Truthy(data.startDate) && Truthy(data.endDate)
      && TruthyNumber(data.duration) && TruthyNumber(data.schoolId)
  {
    SelectEmpty(RequiredMessages, Missing(data));
    var m := Missing(data);
    assert !m[0] && !m[1] && !m[2] && !m[3] && !m[4] ==> forall k :: 0 <= k < |m| ==> !m[k];
  }

  /** Each message appears exactly when its field is missing, and at most five appear. */
  lemma OneMessagePerMissingField(data: ExamFields, k: nat)
    requires k < |RequiredMessages|
    ensures RequiredMessages[k] in ValidationErrors(data) <==> Missing(data)[k]
    ensures |ValidationErrors(data)| == CountTrue(Missing(data)) <= 5
  {
    SelectMembers(RequiredMessages, Missing(data), RequiredMessages[k]);
    SelectLength(RequiredMessages, Missing(data));
  }

  /** A duration of zero is falsy: it is reported as missing. */
  lemma ZeroDurationIsMissing(data: ExamFields)
    requires data.duration == Some(0)
    ensures "Duration is required" in ValidationErrors(data)
  {
    OneMessagePerMissingField(data, 3);
  }

  // ------------------------------------------------------------ exam code

  /** `generateExamCode`: `EXM-<year>-<random>`, with `-R1` for a resit. */
  function GenerateExamCode(year: int, random: nat, isResit: bool): (r: string)
    requires 1000 <= random <= 9999
    ensures var head := "EXM-" + NumberToString(year) + "-";
      |r| == |head| + 4 + (if isResit then 3 else 0) && r[..|head|] == head
  {
    FourDigits(random);
    "EXM-" + NumberToString(year) + "-" + Dec(random) + (if isResit then "-R1" else "")
  }

  /** Reads back the number and the resit flag from the end of an exam code. */
  function ExamCodeTail(code: string): (string, bool) {
    if |code| >= 3 && code[|code| - 3..] == "-R1" then (LastSegment(code[..|code| - 3], '-'), true)
    else (LastSegment(code, '-'), false)
  }

  /** The random part is exactly four digits. */
  lemma FourDigits(random: nat)
    requires 1000 <= random <= 9999
    ensures |Dec(random)| == 4
  {
    var d := Dec(random);
    DecBounds(random);
    if |d| < 4 {
      Pow10Le(|d|, 3);
    } else if |d| > 4 {
      Pow10Le(4, |d| - 1);
    }
  }

  lemma {:induction false} Pow10Le(i: nat, j: nat)
    requires i <= j
    ensures Pow10(i) <= Pow10(j)
    decreases j
  {
    if i < j {
      Pow10Le(i, j - 1);
    }
  }

  /**
   * Round trip: the tail of a generated code gives back the four-digit number
   * and the resit flag, so `-R1` is present exactly for a resit.
   */
  lemma ExamCodeRoundTrip(year: int, random: nat, isResit: bool)
    requires 1000 <= random <= 9999
    ensures ExamCodeTail(GenerateExamCode(year, random, isResit)).1 == isResit
    ensures var digits := ExamCodeTail(GenerateExamCode(year, random, isResit)).0;
      |digits| == 4 && AllDigits(digits) && DigitsValue(digits) == random
  {
    FourDigits(random);
    CodeTailOf("EXM-" + NumberToString(year), Dec(random), isResit);
  }

  /** The tail of `<head>-<four digits>[-R1]` is the four digits and the resit flag. */
  lemma CodeTailOf(head: string, d: string, isResit: bool)
    requires |d| == 4 && AllDigits(d)
    ensures ExamCodeTail(head + "-" + d + (if isResit then "-R1" else "")) == (d, isResit)
  {
    assert '-' !in d;
    LastSegmentOfSuffix(head, '-', d);
    var code := head + "-" + d + (if isResit then "-R1" else "");
    if isResit {
      assert code == head + ['-'] + d + "-R1";
      assert code[..|code| - 3] == head + ['-'] + d;
      assert code[|code| - 3..] == "-R1";
    } else {
      assert code == head + ['-'] + d;
      assert code[|code| - 3..] == d[1..];
      assert code[|code| - 3] == d[1];
    }
  }

  /** The code starts with `EXM-` and the year. */
  lemma ExamCodePrefix(year: int, random: nat, isResit: bool)
    requires 1000 <= random <= 9999
    ensures var head := "EXM-" + NumberToString(year) + "-";
      GenerateExamCode(year, random, isResit)[..|head|] == head
  {
  }
}
