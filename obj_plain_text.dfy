/**
 * `parseObjPlainText` (src/utils/parseObjDocx.ts): turns the plain text of
 * an objective-question bank into questions with five option slots and an
 * answer letter, plus warnings.
 *
 * The pure part is a left-to-right scan: `Step` consumes one line, `Flush`
 * closes the question in progress, and `Parse` is the whole result. The
 * imperative part, `ParseObjPlainText`, is the source's `for` loop over a
 * `Scanner` object whose fields are the function's mutable accumulators; it
 * is proved to return `Parse(text)`.
 */
module ObjPlainText {
  import opened Text

  // ------------------------------------------------------------ data model

  datatype Question = Question(
    text: string,
    optionA: string, optionB: string, optionC: string, optionD: string, optionE: string,
    correct: string)

  /** The warnings the parser can emit; `Message` renders each as the source words it. */
  datatype Warning =
    | AnswerWithoutOption(q: nat, letter: string)
    | AnswerNotAE(q: nat, answer: string)
    | NoAnswerLine(q: nat)
    | NoOptions(q: nat)
    | ParsedWithNote(q: nat, reason: string)
    | OptionNotAE(line: nat, optionLetter: char)
    | NoQuestionsDetected

  datatype ParsedObjResult = ParsedObjResult(questions: seq<Question>, warnings: seq<Warning>)

  function Message(w: Warning): string {
    match w
    case AnswerWithoutOption(q, l) => "Q" + Dec(q) + ": ANSWER is \"" + l + "\" but there is no option " + l + "."
    case AnswerNotAE(q, a) => "Q" + Dec(q) + ": ANSWER \"" + a + "\" is not A\U{2013}E. Leaving correct blank."
    case NoAnswerLine(q) => "Q" + Dec(q) + ": No ANSWER line found. Correct option left blank."
    case NoOptions(q) => "Q" + Dec(q) + ": No options detected. Check the formatting of this question."
    case ParsedWithNote(q, r) => "Q" + Dec(q) + ": Parsed with note: " + r
    case OptionNotAE(n, c) => "Line " + Dec(n) + ": Option \"" + [c] + "\" is not A\U{2013}E. Ignored."
    case NoQuestionsDetected =>
      "No questions were detected. Check if the file has clear questions, options (A\U{2013}D/E), and ANSWER: lines."
  }

  /** The note passed to the flush that a numbered line triggers. */
  const NextQuestionNote: string := "Detected start of next numbered question."

  /** The answer keys `["A", "B", "C", "D", "E"]`. */
  const AnswerLetters: seq<string> := ["A", "B", "C", "D", "E"]

  /** What `correct` may hold. */
  predicate IsCorrectValue(s: string) {
    s == "" || s in AnswerLetters
  }

  /** Upper-casing a letter the answer and option patterns accept gives one of A–E. */
  lemma UpperOptionLetter(c: char)
    requires IsOptionLetter(c)
    ensures [Upper(c)] in AnswerLetters
  {
    var u := Upper(c);
    assert 'A' <= u <= 'E';
    if u == 'A' { assert [u] == AnswerLetters[0]; }
    else if u == 'B' { assert [u] == AnswerLetters[1]; }
    else if u == 'C' { assert [u] == AnswerLetters[2]; }
    else if u == 'D' { assert [u] == AnswerLetters[3]; }
    else { assert [u] == AnswerLetters[4]; }
  }

  /** Upper-casing one of A–E changes nothing, so a recorded answer is its own `correct`. */
  lemma UpperOfAnswerLetter(s: string)
    requires s in AnswerLetters
    ensures UpperString(s) == s
    ensures CorrectFor(s) == s
  {
    assert UpperString(s) == [Upper(s[0])] + UpperString(s[1..]);
  }

  // ------------------------------------------------------- line splitting

  /** `text.replace(/\r\n/g, "\n")`. */
  function ReplaceCrLf(s: string): string {
    if |s| >= 2 && s[0] == '\r' && s[1] == '\n' then "\n" + ReplaceCrLf(s[2..])
    else if s == [] then []
    else [s[0]] + ReplaceCrLf(s[1..])
  }

  /** The lines the parser scans: CRLF to LF, split on LF, trimmed, blank lines dropped. */
  function Lines(text: string): seq<string> {
    TrimAndDropEmpty(Split(ReplaceCrLf(text), '\n'))
  }

  // ------------------------------------------------ the three line patterns

  /** `[A-Ea-e]` */
  predicate IsOptionLetter(c: char) {
    'A' <= c <= 'E' || 'a' <= c <= 'e'
  }

  /** `[\)\.\:\-]` */
  predicate IsSeparator(c: char) {
    c == ')' || c == '.' || c == ':' || c == '-'
  }

  /** `w` splits into whitespace `w[..j]` and a non-empty tail without line terminators: `\s*(.+)$` matches there. */
  predicate RestSplitsAt(w: string, j: nat) {
    j < |w| && AllSpace(w[..j]) && NoLineTerminator(w[j..])
  }

  /** What `(.+)` captures when `\s*(.+)$` is matched against `w`. */
  function RestCapture(w: string): Option<string> {
    var k := SkipSpace(w, 0);
    if k < |w| then
      if NoLineTerminator(w[k..]) then Some(w[k..]) else None
    else if k > 0 && !IsLineTerminator(w[k - 1]) then Some(w[k - 1..])
    else None
  }

  /**
   * `RestCapture` is the greedy match: it captures the tail after the longest
   * whitespace run that leaves a non-empty tail free of line terminators, and
   * fails exactly when no split works.
   */
  lemma RestCaptureSpec(w: string)
    ensures RestCapture(w).Some? ==>
              |RestCapture(w).value| <= |w| && RestSplitsAt(w, |w| - |RestCapture(w).value|)
              && RestCapture(w).value == w[|w| - |RestCapture(w).value|..]
    ensures RestCapture(w).Some? ==> forall j: nat :: |w| - |RestCapture(w).value| < j < |w| ==> !RestSplitsAt(w, j)
    ensures RestCapture(w).None? ==> forall j: nat :: j < |w| ==> !RestSplitsAt(w, j)
  {
    var k := SkipSpace(w, 0);
    SkipSpaceSpec(w, 0);
    assert w[..k] == w[0..k];
    if k < |w| {
      if !NoLineTerminator(w[k..]) {
        assert forall j :: 0 <= j <= k ==> w[k..] == w[j..][k - j..];
      }
    } else if k > 0 && !IsLineTerminator(w[k - 1]) {
      assert w[..k - 1] == w[..k][..k - 1];
    } else {
      assert forall j :: 0 <= j < k ==> w[j..][k - 1 - j] == w[k - 1];
    }
  }

  /** `/^ans(?:wer)?\s*[:=\-]\s*([A-Ea-e])/i`: the captured letter, as written. */
  function AnswerMatch(line: string): (r: Option<char>)
    ensures r.Some? ==>
      |line| >= 3 && IsCi(line[0], 'a') && IsCi(line[1], 'n') && IsCi(line[2], 's')
      && IsOptionLetter(r.value)
  {
    if |line| >= 3 && IsCi(line[0], 'a') && IsCi(line[1], 'n') && IsCi(line[2], 's') then
      var k := if |line| >= 6 && IsCi(line[3], 'w') && IsCi(line[4], 'e') && IsCi(line[5], 'r') then 6 else 3;
      var p := SkipSpace(line, k);
      if p < |line| && (line[p] == ':' || line[p] == '=' || line[p] == '-') then
        var q := SkipSpace(line, p + 1);
        if q < |line| && IsOptionLetter(line[q]) then Some(line[q]) else None
      else None
    else None
  }

  /** `/^[\(\[]?([A-Ea-e])[\)\.\:\-]\s*(.+)$/`: the letter and the captured text, as written. */
  function OptionMatch(line: string): (r: Option<(char, string)>)
    ensures r.Some? ==> IsOptionLetter(r.value.0) && r.value.1 != [] && |r.value.1| + 2 <= |line|
  {
    var p := if line != [] && (line[0] == '(' || line[0] == '[') then 1 else 0;
    if p + 1 < |line| && IsOptionLetter(line[p]) && IsSeparator(line[p + 1]) then
      match RestCapture(line[p + 2..])
      case Some(v) => Some((line[p], v))
      case None => None
    else None
  }

  /** `/^(?:Q\s*)?(\d{1,3})[\)\.\:\-]\s*(.+)$/i`: the text after the number, as captured. */
  function NumberMatch(line: string): (r: Option<string>)
    ensures r.Some? ==> r.value != [] && |r.value| + 2 <= |line|
  {
    var p := if line != [] && IsCi(line[0], 'q') then SkipSpace(line, 1) else 0;
    var d := |LeadingDigits(line[p..])|;
    if 1 <= d <= 3 && p + d < |line| && IsSeparator(line[p + d]) then RestCapture(line[p + d + 1..])
    else None
  }

  /** The line takes the "next question" branch: neither answer nor option, but numbered. */
  predicate IsNumberedStart(line: string) {
    AnswerMatch(line).None? && OptionMatch(line).None? && NumberMatch(line).Some?
  }

  // ------------------------------------------------------------ the scan

  /** The accumulators of one parse: output so far and the question in progress. */
  datatype Scan = Scan(
    questions: seq<Question>, warnings: seq<Warning>,
    text: string, options: map<string, string>, answer: string)

  const Start: Scan := Scan([], [], "", map[], "")

  /** Something has been collected since the last flush. */
  predicate Pending(a: Scan) {
    a.text != "" || |a.options| != 0 || a.answer != ""
  }

  /** `options[k] || ""` */
  function Lookup(m: map<string, string>, k: string): string {
    if k in m then m[k] else ""
  }

  function Emitted(a: Scan, correct: string): Question {
    Question(Trim(a.text),
      Lookup(a.options, "A"), Lookup(a.options, "B"), Lookup(a.options, "C"),
      Lookup(a.options, "D"), Lookup(a.options, "E"), correct)
  }

  predicate NoOptionText(q: Question) {
    q.optionA == "" && q.optionB == "" && q.optionC == "" && q.optionD == "" && q.optionE == ""
  }

  /** The `correct` field a flush records for the answer letter held. */
  function CorrectFor(answer: string): string {
    var up := UpperString(answer);
    if answer != "" && up in AnswerLetters then up else ""
  }

  /** What a flush of question `n` warns about its answer. */
  function AnswerWarnings(n: nat, answer: string, options: map<string, string>): seq<Warning> {
    var up := UpperString(answer);
    if answer == "" then [NoAnswerLine(n)]
    else if up !in AnswerLetters then [AnswerNotAE(n, answer)]
    else if Lookup(options, up) == "" then [AnswerWithoutOption(n, up)]
    else []
  }

  /** What a flush of question `n` warns about its options. */
  function OptionWarnings(n: nat, q: Question): seq<Warning> {
    if NoOptionText(q) then [NoOptions(n)] else []
  }

  /** The note a flush of question `n` adds for a non-null reason. */
  function NoteWarnings(n: nat, reason: string): seq<Warning> {
    if reason != "" then [ParsedWithNote(n, reason)] else []
  }

  lemma AppendNothing(w: seq<Warning>)
    ensures w + [] == w
  {
  }

  /** A flush that has something to close appends `q` and the warnings `w` and clears the question in progress. */
  lemma FlushOfPending(a: Scan, reason: string, q: Question, w: seq<Warning>)
    requires Pending(a)
    requires q == Emitted(a, CorrectFor(a.answer))
    requires w == a.warnings + AnswerWarnings(|a.questions| + 1, a.answer, a.options)
      + OptionWarnings(|a.questions| + 1, q) + NoteWarnings(|a.questions| + 1, reason)
    ensures Flush(a, reason) == Scan(a.questions + [q], w, "", map[], "")
  {
  }

  /** `flushQuestion(reason)`; the empty reason stands for `null`. */
  function Flush(a: Scan, reason: string): Scan {
    if !Pending(a) then a
    else
      var n := |a.questions| + 1;
      var q := Emitted(a, CorrectFor(a.answer));
      Scan(a.questions + [q], a.warnings + AnswerWarnings(n, a.answer, a.options) + OptionWarnings(n, q) + NoteWarnings(n, reason),
        "", map[], "")
  }

  /** One iteration of the `for` loop; `lineNo` is the 1-based `rawIndex`. */
  function Step(a: Scan, line: string, lineNo: nat): Scan {
    match AnswerMatch(line)
    case Some(c) => a.(answer := [Upper(c)])
    case None =>
      match OptionMatch(line)
      case Some(m) =>
        var letter := Upper(m.0);
        if [letter] in AnswerLetters then a.(options := a.options[[letter] := Trim(m.1)])
        else a.(warnings := a.warnings + [OptionNotAE(lineNo, letter)])
      case None =>
        match NumberMatch(line)
        case Some(rest) =>
          var b := if Pending(a) then Flush(a, NextQuestionNote) else a;
          b.(text := Trim(rest))
        case None =>
          if a.text == "" then a.(text := line) else a.(text := a.text + " " + line)
  }

  /** The accumulators after the loop has consumed `lines`. */
  function ScanLines(lines: seq<string>): Scan
    decreases |lines|
  {
    if lines == [] then Start
    else Step(ScanLines(lines[..|lines| - 1]), lines[|lines| - 1], |lines|)
  }

  /** What `parseObjPlainText(text)` returns. */
  function Parse(text: string): (r: ParsedObjResult)
    ensures r.questions == [] ==> r.warnings != [] && r.warnings[|r.warnings| - 1] == NoQuestionsDetected
  {
    var a := Flush(ScanLines(Lines(text)), "");
    if |a.questions| == 0 then ParsedObjResult(a.questions, a.warnings + [NoQuestionsDetected])
    else ParsedObjResult(a.questions, a.warnings)
  }

  // ------------------------------------------------------ the imperative form

  /** The mutable locals of `parseObjPlainText` that `flushQuestion` closes over. */
  class Scanner {
    var questions: seq<Question>
    var warnings: seq<Warning>
    var currentText: string
    var options: map<string, string>
    var currentAnswer: string

    function State(): Scan
      reads this
    {
      Scan(questions, warnings, currentText, options, currentAnswer)
    }

    constructor ()
      ensures State() == Start
    {
      questions, warnings := [], [];
      currentText, options, currentAnswer := "", map[], "";
    }

    method FlushQuestion(reason: string)
      modifies this
      ensures State() == Flush(old(State()), reason)
    {
      if currentText == "" && |options| == 0 && currentAnswer == "" {
        return;
      }
      ghost var a := State();
      var qNumber := |questions| + 1;
      var optionA, optionB, optionC := Lookup(options, "A"), Lookup(options, "B"), Lookup(options, "C");
      var optionD, optionE := Lookup(options, "D"), Lookup(options, "E");
      var correct := "";
      var w := warnings;
      if currentAnswer != "" {
        var up := UpperString(currentAnswer);
        if up in AnswerLetters {
          correct := up;
          if Lookup(options, up) == "" {
            w := w + [AnswerWithoutOption(qNumber, up)];
          } else {
            AppendNothing(w);
          }
        } else {
          w := w + [AnswerNotAE(qNumber, currentAnswer)];
        }
      } else {
        w := w + [NoAnswerLine(qNumber)];
      }
      assert correct == CorrectFor(a.answer) && w == a.warnings + AnswerWarnings(qNumber, a.answer, a.options);
      var q := Question(Trim(currentText), optionA, optionB, optionC, optionD, optionE, correct);
      var w1 := w;
      if optionA == "" && optionB == "" && optionC == "" && optionD == "" && optionE == "" {
        w := w + [NoOptions(qNumber)];
      } else {
        AppendNothing(w);
      }
      var w2 := w;
      if reason != "" {
        w := w + [ParsedWithNote(qNumber, reason)];
      } else {
        AppendNothing(w);
      }
      FlushOfPending(a, reason, q, w);
      questions, warnings, currentText, options, currentAnswer := questions + [q], w, "", map[], "";
    }

    /** The body of the `for` loop, for the `lineNo`-th line. */
    method Consume(line: string, lineNo: nat)
      modifies this
      ensures State() == Step(old(State()), line, lineNo)
    {
      var ansMatch := AnswerMatch(line);
      if ansMatch.Some? {
        currentAnswer := [Upper(ansMatch.value)];
        return;
      }

      var optMatch := OptionMatch(line);
      if optMatch.Some? {
        var letter := Upper(optMatch.value.0);
        var value := Trim(optMatch.value.1);
        if [letter] !in AnswerLetters {
          warnings := warnings + [OptionNotAE(lineNo, letter)];
        } else {
          options := options[[letter] := value];
        }
        return;
      }

      var qMatch := NumberMatch(line);
      if qMatch.Some? {
        if currentText != "" || |options| != 0 || currentAnswer != "" {
          FlushQuestion(NextQuestionNote);
        }
        currentText := Trim(qMatch.value);
        return;
      }

      if currentText == "" {
        currentText := line;
      } else {
        currentText := currentText + " " + line;
      }
    }
  }

  method ParseObjPlainText(text: string) returns (result: ParsedObjResult)
    ensures result == Parse(text)
  {
    var lines := Lines(text);
    var sc := new Scanner();
    var rawIndex := 0;
    for idx := 0 to |lines|
      invariant rawIndex == idx
      invariant sc.State() == ScanLines(lines[..idx])
    {
      assert lines[..idx + 1][..idx] == lines[..idx];
      rawIndex := rawIndex + 1;
      sc.Consume(lines[idx], rawIndex);
    }
    assert lines[..|lines|] == lines;
    sc.FlushQuestion("");
    var questions, warnings := sc.questions, sc.warnings;
    if |questions| == 0 {
      warnings := warnings + [NoQuestionsDetected];
    }
    result := ParsedObjResult(questions, warnings);
  }
}
