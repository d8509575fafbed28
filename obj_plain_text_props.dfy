/**
 * What `parseObjPlainText` promises, proved about the pure scan of
 * `ObjPlainText`: blank input, the answer letter, the warnings that
 * describe each question, which lines close a question, and how many
 * questions come out.
 */
module ObjPlainTextProps {
  import opened Text
  import opened ObjPlainText

  // ------------------------------------------------------------ whitespace

  /** `\r\n` → `\n` keeps an all-whitespace text all whitespace. */
  lemma {:induction false} ReplaceCrLfSpace(s: string)
    requires AllSpace(s)
    ensures AllSpace(ReplaceCrLf(s))
  {
    if |s| >= 2 && s[0] == '\r' && s[1] == '\n' {
      ReplaceCrLfSpace(s[2..]);
    } else if s != [] {
      ReplaceCrLfSpace(s[1..]);
    }
  }

  /** Whitespace-only input (the empty text included) has no lines to scan. */
  lemma BlankTextHasNoLines(text: string)
    requires AllSpace(text)
    ensures Lines(text) == []
  {
    ReplaceCrLfSpace(text);
    SplitOfSpace(ReplaceCrLf(text), '\n');
    AllSpacePiecesDropped(Split(ReplaceCrLf(text), '\n'));
  }

  /** Whitespace-only input yields no question and exactly the "No questions were detected" warning. */
  lemma WhitespaceOnlyText(text: string)
    requires AllSpace(text)
    ensures Parse(text) == ParsedObjResult([], [NoQuestionsDetected])
  {
    BlankTextHasNoLines(text);
  }

  // ------------------------------------------------------------ letters

  /** The option text a question holds for letter `l`. */
  function OptionText(q: Question, l: string): string {
    if l == "A" then q.optionA
    else if l == "B" then q.optionB
    else if l == "C" then q.optionC
    else if l == "D" then q.optionD
    else if l == "E" then q.optionE
    else ""
  }

  // ------------------------------------------------------- warning discipline

  /** The question a warning is about, or 0 for the line and whole-file warnings. */
  function QNum(w: Warning): nat {
    match w
    case AnswerWithoutOption(q, _) => q
    case AnswerNotAE(q, _) => q
    case NoAnswerLine(q) => q
    case NoOptions(q) => q
    case ParsedWithNote(q, _) => q
    case OptionNotAE(_, _) => 0
    case NoQuestionsDetected => 0
  }

  /** `w` tells the truth about the questions `qs`; the first `notes` questions were closed by a numbered line. */
  predicate Describes(w: Warning, qs: seq<Question>, notes: nat) {
    match w
    case NoAnswerLine(n) => 1 <= n <= |qs| && qs[n - 1].correct == ""
    case NoOptions(n) => 1 <= n <= |qs| && NoOptionText(qs[n - 1])
    case AnswerWithoutOption(n, l) =>
      1 <= n <= |qs| && l != "" && l == qs[n - 1].correct && OptionText(qs[n - 1], l) == ""
    case ParsedWithNote(n, r) => 1 <= n <= notes && r == NextQuestionNote
    case AnswerNotAE(_, _) => false
    case OptionNotAE(_, _) => false
    case NoQuestionsDetected => false
  }

  /** Every fact `Describes` can state about question `n` is stated. */
  ghost predicate Complete(qs: seq<Question>, ws: seq<Warning>, notes: nat, n: nat)
    requires 1 <= n <= |qs|
  {
    (qs[n - 1].correct == "" ==> NoAnswerLine(n) in ws)
    && (NoOptionText(qs[n - 1]) ==> NoOptions(n) in ws)
    && (qs[n - 1].correct != "" && OptionText(qs[n - 1], qs[n - 1].correct) == "" ==>
          AnswerWithoutOption(n, qs[n - 1].correct) in ws)
    && (n <= notes ==> ParsedWithNote(n, NextQuestionNote) in ws)
  }

  /**
   * The warnings are exactly the true statements about the questions, each
   * carrying its question's 1-based position, in question order.
   */
  ghost predicate WarningsDescribe(qs: seq<Question>, ws: seq<Warning>, notes: nat) {
    notes <= |qs|
    && (forall i :: 0 <= i < |ws| ==> Describes(ws[i], qs, notes))
    && (forall i, j :: 0 <= i < j < |ws| ==> QNum(ws[i]) <= QNum(ws[j]))
    && (forall n :: 1 <= n <= |qs| ==> Complete(qs, ws, notes, n))
  }

  /** The invariant the scan keeps. */
  ghost predicate Valid(a: Scan, notes: nat) {
    IsCorrectValue(a.answer)
    && (forall k :: k in a.options ==> k in AnswerLetters)
    && (forall i :: 0 <= i < |a.questions| ==> IsCorrectValue(a.questions[i].correct))
    && WarningsDescribe(a.questions, a.warnings, notes)
  }

  /** A statement about the first questions stays true when one more is appended. */
  lemma DescribesExtend(w: Warning, qs: seq<Question>, q: Question, notes: nat, notes': nat)
    requires Describes(w, qs, notes) && notes <= notes'
    ensures Describes(w, qs + [q], notes')
  {
    match w
    case NoAnswerLine(n) => assert (qs + [q])[n - 1] == qs[n - 1];
    case NoOptions(n) => assert (qs + [q])[n - 1] == qs[n - 1];
    case AnswerWithoutOption(n, _) => assert (qs + [q])[n - 1] == qs[n - 1];
    case ParsedWithNote(_, _) =>
  }

  /** Appending question `q` with warnings that describe exactly it keeps the warnings describing the questions. */
  lemma AppendQuestion(qs: seq<Question>, ws: seq<Warning>, notes: nat, q: Question, added: seq<Warning>, notes': nat)
    requires WarningsDescribe(qs, ws, notes)
    requires notes' == notes || (notes == |qs| && notes' == |qs| + 1)
    requires forall k :: 0 <= k < |added| ==> QNum(added[k]) == |qs| + 1 && Describes(added[k], qs + [q], notes')
    requires Complete(qs + [q], added, notes', |qs| + 1)
    ensures WarningsDescribe(qs + [q], ws + added, notes')
  {
    var qs', ws' := qs + [q], ws + added;
    forall i | 0 <= i < |ws'|
      ensures Describes(ws'[i], qs', notes')
    {
      if i < |ws| {
        DescribesExtend(ws[i], qs, q, notes, notes');
      } else {
        assert ws'[i] == added[i - |ws|];
      }
    }
    forall i, j | 0 <= i < j < |ws'|
      ensures QNum(ws'[i]) <= QNum(ws'[j])
    {
      if j < |ws| {
      } else if i < |ws| {
        assert Describes(ws[i], qs, notes);
        assert ws'[j] == added[j - |ws|];
      } else {
        assert ws'[i] == added[i - |ws|] && ws'[j] == added[j - |ws|];
      }
    }
    forall n | 1 <= n <= |qs'|
      ensures Complete(qs', ws', notes', n)
    {
      if n <= |qs| {
        assert Complete(qs, ws, notes, n);
        assert qs'[n - 1] == qs[n - 1];
      }
    }
  }

  /** The warnings a flush of a pending scan adds for question `N`. */
  function Added(a: Scan, reason: string, N: nat): seq<Warning> {
    (if a.answer == "" then [NoAnswerLine(N)]
     else if Lookup(a.options, a.answer) == "" then [AnswerWithoutOption(N, a.answer)]
     else [])
    + (if NoOptionText(Emitted(a, a.answer)) then [NoOptions(N)] else [])
    + (if reason != "" then [ParsedWithNote(N, reason)] else [])
  }

  /** What a flush appends when it has something to close. */
  lemma FlushAppends(a: Scan, reason: string)
    requires Pending(a) && IsCorrectValue(a.answer)
    ensures Flush(a, reason).questions == a.questions + [Emitted(a, a.answer)]
    ensures Flush(a, reason).warnings == a.warnings + Added(a, reason, |a.questions| + 1)
  {
    if a.answer != "" {
      UpperOfAnswerLetter(a.answer);
    }
  }

  /** An emitted question's option slots are the options map read at A–E. */
  lemma EmittedOptionText(a: Scan, l: string)
    requires l in AnswerLetters
    ensures OptionText(Emitted(a, a.answer), l) == Lookup(a.options, l)
  {
  }

  /** The warnings a flush adds are true of the question it emits, and all of them are there. */
  lemma AddedDescribes(a: Scan, reason: string, qs: seq<Question>, notes': nat)
    requires IsCorrectValue(a.answer)
    requires (reason == "" && notes' <= |qs|) || (reason == NextQuestionNote && notes' == |qs| + 1)
    ensures var added := Added(a, reason, |qs| + 1);
      (forall k :: 0 <= k < |added| ==>
         QNum(added[k]) == |qs| + 1 && Describes(added[k], qs + [Emitted(a, a.answer)], notes'))
      && Complete(qs + [Emitted(a, a.answer)], added, notes', |qs| + 1)
  {
    var q := Emitted(a, a.answer);
    var N := |qs| + 1;
    assert (qs + [q])[N - 1] == q;
    if a.answer != "" {
      EmittedOptionText(a, a.answer);
    }
  }

  /** Appending a question whose `correct` is valid keeps every `correct` valid. */
  lemma AppendCorrect(qs: seq<Question>, q: Question)
    requires forall i :: 0 <= i < |qs| ==> IsCorrectValue(qs[i].correct)
    requires IsCorrectValue(q.correct)
    ensures forall i :: 0 <= i < |qs + [q]| ==> IsCorrectValue((qs + [q])[i].correct)
  {
    forall i | 0 <= i < |qs + [q]|
      ensures IsCorrectValue((qs + [q])[i].correct)
    {
      if i < |qs| {
        assert (qs + [q])[i] == qs[i];
      }
    }
  }

  /** A flush keeps the invariant: the question it emits is described by exactly the warnings it adds. */
  lemma FlushValid(a: Scan, reason: string, notes: nat)
    requires Valid(a, notes)
    requires reason == "" || (reason == NextQuestionNote && notes == |a.questions|)
    ensures Valid(Flush(a, reason), if Pending(a) && reason != "" then notes + 1 else notes)
  {
    if Pending(a) {
      var qs := a.questions;
      var q := Emitted(a, a.answer);
      var notes' := if reason != "" then notes + 1 else notes;
      FlushAppends(a, reason);
      AddedDescribes(a, reason, qs, notes');
      AppendQuestion(qs, a.warnings, notes, q, Added(a, reason, |qs| + 1), notes');
      AppendCorrect(qs, q);
    }
  }

  /** The answer pattern captures a letter from `[A-Ea-e]`. */
  lemma AnswerMatchLetter(line: string)
    requires AnswerMatch(line).Some?
    ensures IsOptionLetter(AnswerMatch(line).value)
  {
  }

  /** The option pattern captures a letter from `[A-Ea-e]`. */
  lemma OptionMatchLetter(line: string)
    requires OptionMatch(line).Some?
    ensures IsOptionLetter(OptionMatch(line).value.0)
  {
  }

  /** Consuming one line keeps the invariant, while the scan has closed every question with a numbered line. */
  lemma StepValid(a: Scan, line: string, lineNo: nat)
    requires Valid(a, |a.questions|)
    ensures Valid(Step(a, line, lineNo), |Step(a, line, lineNo).questions|)
  {
    if AnswerMatch(line).Some? {
      AnswerStepValid(a, line, lineNo);
    } else if OptionMatch(line).Some? {
      OptionStepValid(a, line, lineNo);
    } else {
      TextStepValid(a, line, lineNo);
    }
  }

  /** An `Answer:` line sets a valid answer letter. */
  lemma AnswerStepValid(a: Scan, line: string, lineNo: nat)
    requires Valid(a, |a.questions|) && AnswerMatch(line).Some?
    ensures Valid(Step(a, line, lineNo), |Step(a, line, lineNo).questions|)
  {
    AnswerMatchLetter(line);
    UpperOptionLetter(AnswerMatch(line).value);
  }

  /** An option line records an option under a letter A to E, or a warning. */
  lemma OptionStepValid(a: Scan, line: string, lineNo: nat)
    requires Valid(a, |a.questions|) && AnswerMatch(line).None? && OptionMatch(line).Some?
    ensures Valid(Step(a, line, lineNo), |Step(a, line, lineNo).questions|)
  {
    OptionMatchLetter(line);
    UpperOptionLetter(OptionMatch(line).value.0);
  }

  /** A numbered line closes the pending question; any other line extends the text. */
  lemma TextStepValid(a: Scan, line: string, lineNo: nat)
    requires Valid(a, |a.questions|) && AnswerMatch(line).None? && OptionMatch(line).None?
    ensures Valid(Step(a, line, lineNo), |Step(a, line, lineNo).questions|)
  {
    if NumberMatch(line).Some? && Pending(a) {
      FlushValid(a, NextQuestionNote, |a.questions|);
    }
  }

  /** Throughout the loop the warnings describe the questions, and every question so far was closed by a numbered line. */
  lemma {:induction false} ScanValid(lines: seq<string>)
    ensures Valid(ScanLines(lines), |ScanLines(lines).questions|)
    decreases |lines|
  {
    if lines != [] {
      ScanValid(lines[..|lines| - 1]);
      StepValid(ScanLines(lines[..|lines| - 1]), lines[|lines| - 1], |lines|);
    }
  }

  // ------------------------------------------------------ which lines close a question

  /** A successful `\s*(.+)$` capture is a non-empty suffix of the text it was matched against. */
  lemma RestCaptureSuffix(w: string)
    requires RestCapture(w).Some?
    ensures RestCapture(w).value != []
    ensures RestCapture(w).value[|RestCapture(w).value| - 1] == w[|w| - 1]
  {
    RestCaptureSpec(w);
  }

  /** The text after a question number ends where the line ends. */
  lemma NumberMatchSuffix(line: string)
    requires NumberMatch(line).Some?
    ensures NumberMatch(line).value != []
    ensures NumberMatch(line).value[|NumberMatch(line).value| - 1] == line[|line| - 1]
  {
    var p := if line != [] && IsCi(line[0], 'q') then SkipSpace(line, 1) else 0;
    var d := |LeadingDigits(line[p..])|;
    RestCaptureSuffix(line[p + d + 1..]);
  }

  /** A key in a map makes the map non-empty. */
  lemma NonEmptyMap(m: map<string, string>, k: string)
    requires k in m
    ensures |m| != 0
  {
    assert k in m.Keys;
  }

  /** An option line records its text under one of A–E, so the options map is no longer empty. */
  lemma OptionStepPending(a: Scan, line: string, lineNo: nat)
    requires AnswerMatch(line).None? && OptionMatch(line).Some?
    ensures |Step(a, line, lineNo).options| != 0
  {
    var m := OptionMatch(line).value;
    OptionMatchLetter(line);
    UpperOptionLetter(m.0);
    NonEmptyMap(a.options[[Upper(m.0)] := Trim(m.1)], [Upper(m.0)]);
  }

  /** A numbered line of a trimmed line starts a question whose text is not blank. */
  lemma NumberStepPending(a: Scan, line: string, lineNo: nat)
    requires line != [] && IsTrimmed(line) && IsNumberedStart(line)
    ensures Step(a, line, lineNo).text != ""
  {
    var rest := NumberMatch(line).value;
    NumberMatchSuffix(line);
    TrimSpec(rest);
    assert !IsSpace(rest[|rest| - 1]);
    assert Step(a, line, lineNo).text == Trim(rest);
  }

  /** After any non-empty trimmed line some question is in progress: every line either starts, extends or fills one. */
  lemma StepPending(a: Scan, line: string, lineNo: nat)
    requires line != [] && IsTrimmed(line)
    ensures Pending(Step(a, line, lineNo))
  {
    if AnswerMatch(line).None? {
      if OptionMatch(line).Some? {
        OptionStepPending(a, line, lineNo);
      } else if NumberMatch(line).Some? {
        NumberStepPending(a, line, lineNo);
      }
    }
  }

  /**
   * An option line records its trimmed text under its upper-cased letter,
   * replacing any earlier text for that letter and leaving the other letters,
   * the answer, the stem and the output alone.
   */
  lemma OptionLineSets(a: Scan, line: string, lineNo: nat, l: string)
    requires AnswerMatch(line).None? && OptionMatch(line).Some?
    ensures var m := OptionMatch(line).value; var b := Step(a, line, lineNo);
      Lookup(b.options, [Upper(m.0)]) == Trim(m.1)
      && (l != [Upper(m.0)] ==> Lookup(b.options, l) == Lookup(a.options, l))
      && b.questions == a.questions && b.warnings == a.warnings && b.text == a.text && b.answer == a.answer
  {
    OptionMatchLetter(line);
    UpperOptionLetter(OptionMatch(line).value.0);
  }

  /** An answer line sets the answer to its upper-cased letter whatever was held before, and changes nothing else. */
  lemma AnswerLineSets(a: Scan, line: string, lineNo: nat)
    requires AnswerMatch(line).Some?
    ensures Step(a, line, lineNo) == a.(answer := [Upper(AnswerMatch(line).value)])
    ensures Step(a, line, lineNo).answer in AnswerLetters
  {
    AnswerMatchLetter(line);
    UpperOptionLetter(AnswerMatch(line).value);
  }

  /** A line matching no pattern is appended to the stem with one space; nothing else changes. */
  lemma PlainLineExtendsStem(a: Scan, line: string, lineNo: nat)
    requires AnswerMatch(line).None? && OptionMatch(line).None? && NumberMatch(line).None?
    ensures Step(a, line, lineNo) == a.(text := if a.text == "" then line else a.text + " " + line)
  {
  }

  /** The questions a step emits: one, exactly when a numbered line meets a question in progress. */
  lemma StepQuestions(a: Scan, line: string, lineNo: nat)
    requires IsCorrectValue(a.answer)
    ensures Step(a, line, lineNo).questions ==
      if IsNumberedStart(line) && Pending(a) then a.questions + [Emitted(a, a.answer)] else a.questions
  {
    if AnswerMatch(line).None? && OptionMatch(line).None? && NumberMatch(line).Some? && Pending(a) {
      FlushAppends(a, NextQuestionNote);
    } else if AnswerMatch(line).None? && OptionMatch(line).Some? {
      OptionMatchLetter(line);
      UpperOptionLetter(OptionMatch(line).value.0);
    }
  }

  /** How many lines after the first start a new question. */
  function ClosingLines(lines: seq<string>): nat
    decreases |lines|
  {
    if |lines| <= 1 then 0
    else ClosingLines(lines[..|lines| - 1]) + (if IsNumberedStart(lines[|lines| - 1]) then 1 else 0)
  }

  /** Every line non-empty and trimmed, as `Lines` produces them. */
  predicate AllTrimmedLines(lines: seq<string>) {
    forall k :: 0 <= k < |lines| ==> lines[k] != [] && IsTrimmed(lines[k])
  }

  /**
   * Over non-empty trimmed lines the loop closes one question per numbered
   * line after the first line, and leaves a question in progress.
   */
  lemma {:induction false} ScanCount(lines: seq<string>)
    requires AllTrimmedLines(lines)
    ensures |ScanLines(lines).questions| == ClosingLines(lines)
    ensures lines != [] ==> Pending(ScanLines(lines))
    decreases |lines|
  {
    if lines != [] {
      var init := lines[..|lines| - 1];
      assert AllTrimmedLines(init) by {
        forall k | 0 <= k < |init| ensures init[k] != [] && IsTrimmed(init[k]) {
          assert init[k] == lines[k];
        }
      }
      ScanCount(init);
      ScanValid(init);
      StepQuestions(ScanLines(init), lines[|lines| - 1], |lines|);
      StepPending(ScanLines(init), lines[|lines| - 1], |lines|);
    }
  }

  /** The lines the parser scans are non-empty and trimmed. */
  lemma LinesTrimmed(text: string)
    ensures AllTrimmedLines(Lines(text))
  {
    TrimAndDropEmptyTrimmed(Split(ReplaceCrLf(text), '\n'));
  }

  /**
   * One question per numbered line after the first line, plus the one the
   * final flush closes: no text yields no question.
   */
  lemma QuestionCount(text: string)
    ensures |Parse(text).questions| == if Lines(text) == [] then 0 else ClosingLines(Lines(text)) + 1
  {
    var lines := Lines(text);
    LinesTrimmed(text);
    ScanCount(lines);
    ScanValid(lines);
    if lines != [] {
      FlushAppends(ScanLines(lines), "");
    }
  }

  // ------------------------------------------------------ the result

  /** The number of questions the scan closed with a numbered line: all but the last. */
  function Notes(r: ParsedObjResult): nat {
    if |r.questions| == 0 then 0 else |r.questions| - 1
  }

  /**
   * The result of a parse: every `correct` is one of A–E or empty, and the
   * warnings describe the questions — all but the last noted as closed by
   * the next numbered line — or, when nothing was parsed, are the single
   * "no questions" warning.
   */
  lemma ParseDescribed(text: string)
    ensures forall i :: 0 <= i < |Parse(text).questions| ==> IsCorrectValue(Parse(text).questions[i].correct)
    ensures |Parse(text).questions| == 0 ==> Parse(text).warnings == [NoQuestionsDetected]
    ensures |Parse(text).questions| != 0 ==>
      WarningsDescribe(Parse(text).questions, Parse(text).warnings, Notes(Parse(text)))
  {
    var lines := Lines(text);
    var a := ScanLines(lines);
    LinesTrimmed(text);
    ScanValid(lines);
    ScanCount(lines);
    FlushValid(a, "", |a.questions|);
    var b := Flush(a, "");
    if lines != [] {
      FlushAppends(a, "");
      assert |b.questions| == |a.questions| + 1;
    } else {
      assert |b.questions| == 0;
    }
  }

  /** Over described warnings, a "no answer line" warning is there exactly when it is true. */
  lemma DescribedNoAnswerLine(qs: seq<Question>, ws: seq<Warning>, notes: nat, n: nat)
    requires WarningsDescribe(qs, ws, notes) && 1 <= n <= |qs|
    ensures NoAnswerLine(n) in ws <==> qs[n - 1].correct == ""
  {
    assert Complete(qs, ws, notes, n);
    if NoAnswerLine(n) in ws {
      var i :| 0 <= i < |ws| && ws[i] == NoAnswerLine(n);
      assert Describes(ws[i], qs, notes);
    }
  }

  /** Question `n` is reported as lacking an answer line exactly when its `correct` is empty. */
  lemma {:induction false} NoAnswerLineReported(text: string, n: nat)
    requires 1 <= n <= |Parse(text).questions|
    ensures NoAnswerLine(n) in Parse(text).warnings <==> Parse(text).questions[n - 1].correct == ""
  {
    var r := Parse(text);
    ParseDescribed(text);
    DescribedNoAnswerLine(r.questions, r.warnings, Notes(r), n);
  }

  /** Over described warnings, a "no options" warning is there exactly when it is true. */
  lemma DescribedNoOptions(qs: seq<Question>, ws: seq<Warning>, notes: nat, n: nat)
    requires WarningsDescribe(qs, ws, notes) && 1 <= n <= |qs|
    ensures NoOptions(n) in ws <==> NoOptionText(qs[n - 1])
  {
    assert Complete(qs, ws, notes, n);
    if NoOptions(n) in ws {
      var i :| 0 <= i < |ws| && ws[i] == NoOptions(n);
      assert Describes(ws[i], qs, notes);
    }
  }

  /** Question `n` is reported as having no options exactly when all five option texts are empty. */
  lemma {:induction false} NoOptionsReported(text: string, n: nat)
    requires 1 <= n <= |Parse(text).questions|
    ensures NoOptions(n) in Parse(text).warnings <==> NoOptionText(Parse(text).questions[n - 1])
  {
    var r := Parse(text);
    ParseDescribed(text);
    DescribedNoOptions(r.questions, r.warnings, Notes(r), n);
  }

  /** Over described warnings, an "answer without option" warning is there exactly when it is true. */
  lemma DescribedAnswerWithoutOption(qs: seq<Question>, ws: seq<Warning>, notes: nat, n: nat, l: string)
    requires WarningsDescribe(qs, ws, notes)
    ensures AnswerWithoutOption(n, l) in ws <==>
      1 <= n <= |qs| && l != "" && l == qs[n - 1].correct && OptionText(qs[n - 1], l) == ""
  {
    if AnswerWithoutOption(n, l) in ws {
      var i :| 0 <= i < |ws| && ws[i] == AnswerWithoutOption(n, l);
      assert Describes(ws[i], qs, notes);
    }
    if 1 <= n <= |qs| {
      assert Complete(qs, ws, notes, n);
    }
  }

  /** Question `n` is reported as answered with a missing option exactly when its answer letter has no option text. */
  lemma {:induction false} AnswerWithoutOptionReported(text: string, n: nat, l: string)
    ensures AnswerWithoutOption(n, l) in Parse(text).warnings <==>
      1 <= n <= |Parse(text).questions| && l != "" && l == Parse(text).questions[n - 1].correct
      && OptionText(Parse(text).questions[n - 1], l) == ""
  {
    var r := Parse(text);
    ParseDescribed(text);
    if |r.questions| != 0 {
      DescribedAnswerWithoutOption(r.questions, r.warnings, Notes(r), n, l);
    }
  }

  /** Over described warnings, a note is there exactly for the first `notes` questions. */
  lemma DescribedNotes(qs: seq<Question>, ws: seq<Warning>, notes: nat, n: nat, note: string)
    requires WarningsDescribe(qs, ws, notes)
    ensures ParsedWithNote(n, note) in ws <==> 1 <= n <= notes && note == NextQuestionNote
  {
    if ParsedWithNote(n, note) in ws {
      var i :| 0 <= i < |ws| && ws[i] == ParsedWithNote(n, note);
      assert Describes(ws[i], qs, notes);
    }
    if 1 <= n <= notes {
      assert Complete(qs, ws, notes, n);
    }
  }

  /** Every question but the last, and no other, carries the "next numbered question" note. */
  lemma {:induction false} NotesReported(text: string, n: nat, note: string)
    ensures ParsedWithNote(n, note) in Parse(text).warnings <==>
      1 <= n < |Parse(text).questions| && note == NextQuestionNote
  {
    var r := Parse(text);
    ParseDescribed(text);
    if |r.questions| != 0 {
      DescribedNotes(r.questions, r.warnings, Notes(r), n, note);
    }
  }

  /**
   * The "not A–E" warnings never appear, since both patterns only capture
   * A–E in either case; "no questions" appears exactly when nothing was parsed;
   * and the warnings come in question order.
   */
  lemma {:induction false} WarningKinds(text: string)
    ensures forall i :: 0 <= i < |Parse(text).warnings| ==>
      !Parse(text).warnings[i].AnswerNotAE? && !Parse(text).warnings[i].OptionNotAE?
    ensures NoQuestionsDetected in Parse(text).warnings <==> |Parse(text).questions| == 0
    ensures forall i, j :: 0 <= i < j < |Parse(text).warnings| ==>
      QNum(Parse(text).warnings[i]) <= QNum(Parse(text).warnings[j])
  {
    var r := Parse(text);
    ParseDescribed(text);
    if |r.questions| != 0 {
      forall i | 0 <= i < |r.warnings|
        ensures !r.warnings[i].AnswerNotAE? && !r.warnings[i].OptionNotAE? && !r.warnings[i].NoQuestionsDetected?
      {
        assert Describes(r.warnings[i], r.questions, Notes(r));
      }
    } else {
      assert r.warnings[0] == NoQuestionsDetected;
    }
  }
}
