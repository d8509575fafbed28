/**
 * The parser inside `parseObjectiveFile`
 * (src/controllers/objImport.controller.ts): an index-driven scan over the
 * lines of an uploaded question bank. A line "looks like a question" when it
 * is neither an option nor an answer line and an option line follows within
 * six lines; from there a stem loop and an options loop read one block, which
 * is emitted as a question with the next id or, when it has no option text,
 * dropped with a warning.
 *
 * `CollectFrom` is the scan as a tail-recursive function over the loop's
 * state; `ParseObjectiveFile` is the source's nested loops, proved to return
 * `Import(rawText)`.
 */
module ObjImport {
  import opened Text
  import Plain = ObjPlainText

  // ------------------------------------------------------------ data model

  /** One element of the `questions` array the handler returns. */
  datatype ImportedQuestion = ImportedQuestion(
    id: nat, text: string,
    optionA: string, optionB: string, optionC: string, optionD: string, optionE: string,
    correct: string)

  /** The warnings of the scan; `Message` renders each as the handler words it. */
  datatype ImportWarning =
    | InvalidAnswerFormat(line: string)
    | SkippedBlock(stem: string)

  datatype ImportResult = ImportResult(questions: seq<ImportedQuestion>, warnings: seq<ImportWarning>)

  /** `s.slice(0, n)` */
  function Prefix(s: string, n: nat): string {
    if |s| <= n then s else s[..n]
  }

  function Message(w: ImportWarning): string {
    match w
    case InvalidAnswerFormat(l) => "Invalid answer format: \"" + l + "\""
    case SkippedBlock(stem) =>
      "Skipped a block that looked like a question but had no options: \"" + Prefix(stem, 50) + "...\""
  }

  // ------------------------------------------------------- line splitting

  /** `rawText.replace(/\r/g, "")` */
  function DeleteCr(s: string): string {
    if s == [] then []
    else (if s[0] == '\r' then [] else [s[0]]) + DeleteCr(s[1..])
  }

  /** The lines the scan reads: every `\r` deleted, split on `\n`, trimmed, empty lines dropped. */
  function ImportLines(rawText: string): seq<string> {
    TrimAndDropEmpty(Split(DeleteCr(rawText), '\n'))
  }

  // ------------------------------------------------------ the two patterns

  /** `[\).\s-]` */
  predicate IsOptionSeparator(c: char) {
    c == ')' || c == '.' || IsSpace(c) || c == '-'
  }

  /** Where the run of separators starting at `i` ends. */
  function SeparatorRunEnd(s: string, i: nat): (j: nat)
    requires i <= |s|
    ensures i <= j <= |s|
    decreases |s| - i
  {
    if i < |s| && IsOptionSeparator(s[i]) then SeparatorRunEnd(s, i + 1) else i
  }

  /**
   * `/^([A-E])[\).\s-]+(.*)$/i`: the letter and the text group. The greedy
   * separator run is the only one to try: any shorter run leaves a longer
   * tail, which holds every line terminator the greedy tail holds.
   */
  function OptionLineMatch(line: string): (r: Option<(char, string)>)
    ensures r.Some? ==> |line| >= 2 && r.value.0 == line[0] && Plain.IsOptionLetter(r.value.0) && NoLineTerminator(r.value.1)
  {
    if |line| >= 2 && Plain.IsOptionLetter(line[0]) && IsOptionSeparator(line[1]) then
      var k := SeparatorRunEnd(line, 1);
      if NoLineTerminator(line[k..]) then Some((line[0], line[k..])) else None
    else None
  }

  /**
   * `/^answer\s*[:\-]?\s*([A-E])/i`: the letter. After the spaces that follow
   * `answer`, a `:` or `-` is consumed when present, since skipping it would
   * leave that character where the letter must be.
   */
  function AnswerLineMatch(line: string): (r: Option<char>)
    ensures r.Some? ==> |line| >= 7 && IsCi(line[0], 'a') && Plain.IsOptionLetter(r.value)
  {
    if |line| >= 6 && IsCi(line[0], 'a') && IsCi(line[1], 'n') && IsCi(line[2], 's')
       && IsCi(line[3], 'w') && IsCi(line[4], 'e') && IsCi(line[5], 'r') then
      var p := SkipSpace(line, 6);
      var q := if p < |line| && (line[p] == ':' || line[p] == '-') then SkipSpace(line, p + 1) else p;
      if q < |line| && Plain.IsOptionLetter(line[q]) then Some(line[q]) else None
    else None
  }

  /** `isOptionLine` */
  predicate IsOptionLine(line: string) {
    OptionLineMatch(line).Some?
  }

  /** `isAnswerLine` */
  predicate IsAnswerLine(line: string) {
    AnswerLineMatch(line).Some?
  }

  /** `looksLikeQuestion(idx)`, stated declaratively. */
  predicate IsQuestionStart(lines: seq<string>, idx: nat)
    ensures IsQuestionStart(lines, idx) ==> idx + 1 < |lines| && lines[idx] != ""
  {
    idx < |lines| && lines[idx] != "" && !IsOptionLine(lines[idx]) && !IsAnswerLine(lines[idx])
    && exists k :: idx < k <= idx + 6 && k < |lines| && IsOptionLine(lines[k])
  }

  /** `looksLikeQuestion(idx)` with its look-ahead loop. */
  method LooksLikeQuestion(lines: seq<string>, idx: nat) returns (b: bool)
    ensures b == IsQuestionStart(lines, idx)
  {
    if idx >= |lines| || lines[idx] == "" {
      return false;
    }
    var line := lines[idx];
    if IsOptionLine(line) || IsAnswerLine(line) {
      return false;
    }
    var k := idx + 1;
    while k <= idx + 6 && k < |lines|
      invariant idx + 1 <= k <= idx + 7
      invariant forall m :: idx < m < k && m < |lines| ==> !IsOptionLine(lines[m])
      decreases idx + 7 - k
    {
      if IsOptionLine(lines[k]) {
        return true;
      }
      k := k + 1;
    }
    return false;
  }

  // ------------------------------------------------------------ the scan

  /** The stem loop from index `i` with `questionText` so far: where it stops and the text it built. */
  function StemScan(lines: seq<string>, i: nat, questionText: string): (r: (nat, string))
    requires i <= |lines|
    ensures i <= r.0 <= |lines|
    decreases |lines| - i
  {
    if i == |lines| then (i, questionText)
    else if lines[i] == "" then StemScan(lines, i + 1, questionText)
    else if IsOptionLine(lines[i]) || IsAnswerLine(lines[i]) then (i, questionText)
    else if IsQuestionStart(lines, i) then (i, questionText)
    else StemScan(lines, i + 1, questionText + " " + lines[i])
  }

  /** The state the options loop leaves: the index it stopped at, `opts`, `correct` and the warnings. */
  datatype OptionsRead = OptionsRead(next: nat, opts: map<string, string>, correct: string, warnings: seq<ImportWarning>)

  /** `{ A: "", B: "", C: "", D: "", E: "" }` */
  const InitialOptions: map<string, string> := map["A" := "", "B" := "", "C" := "", "D" := "", "E" := ""]

  /** The options loop from index `i`. */
  function ReadOptions(lines: seq<string>, i: nat, opts: map<string, string>, correct: string,
                       warnings: seq<ImportWarning>): (r: OptionsRead)
    requires i <= |lines|
    ensures i <= r.next <= |lines|
    ensures r.next == i ==> r.opts == opts
    decreases |lines| - i
  {
    if i == |lines| then OptionsRead(i, opts, correct, warnings)
    else if lines[i] == "" then ReadOptions(lines, i + 1, opts, correct, warnings)
    else match OptionLineMatch(lines[i])
      case Some(m) =>
        var letter := [Upper(m.0)];
        ReadOptions(lines, i + 1, if letter in Plain.AnswerLetters then opts[letter := Trim(m.1)] else opts,
          correct, warnings)
      case None =>
        match AnswerLineMatch(lines[i])
        case Some(c) =>
          var letter := [Upper(c)];
          if letter in Plain.AnswerLetters then ReadOptions(lines, i + 1, opts, letter, warnings)
          else ReadOptions(lines, i + 1, opts, correct, warnings + [InvalidAnswerFormat(lines[i])])
        case None => OptionsRead(i, opts, correct, warnings)
  }

  /** `Object.values(opts).some(v => v && v.trim().length > 0)`; `opts` only ever holds the keys A–E. */
  predicate HasAnyOption(opts: map<string, string>) {
    Trim(Plain.Lookup(opts, "A")) != "" || Trim(Plain.Lookup(opts, "B")) != ""
    || Trim(Plain.Lookup(opts, "C")) != "" || Trim(Plain.Lookup(opts, "D")) != ""
    || Trim(Plain.Lookup(opts, "E")) != ""
  }

  /** The question record pushed for a block. */
  function Block(id: nat, text: string, opts: map<string, string>, correct: string): ImportedQuestion {
    ImportedQuestion(id, text,
      Plain.Lookup(opts, "A"), Plain.Lookup(opts, "B"), Plain.Lookup(opts, "C"),
      Plain.Lookup(opts, "D"), Plain.Lookup(opts, "E"), correct)
  }

  /** The outer loop from index `i` with id counter `id` and the output so far. */
  function CollectFrom(lines: seq<string>, i: nat, id: nat,
                       questions: seq<ImportedQuestion>, warnings: seq<ImportWarning>): (r: ImportResult)
    requires i <= |lines|
    ensures |questions| <= |r.questions| && r.questions[..|questions|] == questions
    ensures 2 * (|r.questions| - |questions|) <= |lines| - i
    decreases |lines| - i
  {
    if i == |lines| then ImportResult(questions, warnings)
    else if !IsQuestionStart(lines, i) then CollectFrom(lines, i + 1, id, questions, warnings)
    else
      var stem := StemScan(lines, i + 1, lines[i]);
      var r := ReadOptions(lines, stem.0, InitialOptions, "", warnings);
      if !HasAnyOption(r.opts) then
        CollectFrom(lines, r.next, id, questions, r.warnings + [SkippedBlock(stem.1)])
      else
        var more := questions + [Block(id, stem.1, r.opts, r.correct)];
        var result := CollectFrom(lines, r.next, id + 1, more, r.warnings);
        assert result.questions[..|questions|] == more[..|questions|];
        result
  }

  /**
   * What the handler answers with `{ questions, warnings }` for the extracted
   * text: every question takes at least two of its lines, a stem and an option.
   */
  function Import(rawText: string): (r: ImportResult)
    ensures 2 * |r.questions| <= |ImportLines(rawText)|
  {
    CollectFrom(ImportLines(rawText), 0, 1, [], [])
  }

  // ------------------------------------------------------ the imperative form

  /** The stem loop of one block, entered with `questionText = lines[start]` and `i = start + 1`. */
  method ReadStem(lines: seq<string>, start: nat) returns (i: nat, questionText: string)
    requires start < |lines|
    ensures (i, questionText) == StemScan(lines, start + 1, lines[start])
  {
    questionText := lines[start];
    i := start + 1;
    while i < |lines|
      invariant start < i <= |lines|
      invariant StemScan(lines, i, questionText) == StemScan(lines, start + 1, lines[start])
      decreases |lines| - i
    {
      var l2 := lines[i];
      if l2 == "" {
        i := i + 1;
        continue;
      }
      if IsOptionLine(l2) || IsAnswerLine(l2) {
        break;
      }
      var next := LooksLikeQuestion(lines, i);
      if next {
        break;
      }
      questionText := questionText + " " + l2;
      i := i + 1;
    }
  }

  /** The options loop of one block from index `from`, pushing onto `warnings`. */
  method ReadOptionLines(lines: seq<string>, from: nat, warnings: seq<ImportWarning>)
    returns (i: nat, opts: map<string, string>, correct: string, warnings': seq<ImportWarning>)
    requires from <= |lines|
    ensures OptionsRead(i, opts, correct, warnings') == ReadOptions(lines, from, InitialOptions, "", warnings)
  {
    i, opts, correct, warnings' := from, InitialOptions, "", warnings;
    while i < |lines|
      invariant from <= i <= |lines|
      invariant ReadOptions(lines, i, opts, correct, warnings') == ReadOptions(lines, from, InitialOptions, "", warnings)
      decreases |lines| - i
    {
      var l3 := lines[i];
      if l3 == "" {
        i := i + 1;
        continue;
      }
      var optMatch := OptionLineMatch(l3);
      var ansMatch := AnswerLineMatch(l3);
      if optMatch.Some? {
        var letter := [Upper(optMatch.value.0)];
        var text := Trim(optMatch.value.1);
        if letter in Plain.AnswerLetters {
          opts := opts[letter := text];
        }
        i := i + 1;
        continue;
      }
      if ansMatch.Some? {
        var letter := [Upper(ansMatch.value)];
        if letter in Plain.AnswerLetters {
          correct := letter;
        } else {
          warnings' := warnings' + [InvalidAnswerFormat(l3)];
        }
        i := i + 1;
        continue;
      }
      break;
    }
  }

  /** The parsing part of `parseObjectiveFile`, from normalisation to the final `questions` and `warnings`. */
  method ParseObjectiveFile(rawText: string) returns (result: ImportResult)
    ensures result == Import(rawText)
  {
    var lines := ImportLines(rawText);
    var questions: seq<ImportedQuestion> := [];
    var warnings: seq<ImportWarning> := [];
    var i := 0;
    var qId := 1;
    while i < |lines|
      invariant i <= |lines|
      invariant CollectFrom(lines, i, qId, questions, warnings) == Import(rawText)
      decreases |lines| - i
    {
      var isStart := LooksLikeQuestion(lines, i);
      if !isStart {
        i := i + 1;
        continue;
      }
      var stemEnd, questionText := ReadStem(lines, i);
      var next, opts, correct, warnings' := ReadOptionLines(lines, stemEnd, warnings);
      i, warnings := next, warnings';
      if !HasAnyOption(opts) {
        warnings := warnings + [SkippedBlock(questionText)];
        continue;
      }
      questions := questions + [Block(qId, questionText, opts, correct)];
      qId := qId + 1;
    }
    result := ImportResult(questions, warnings);
  }
}
