/**
 * What the scan in `parseObjectiveFile` guarantees, proved about `ObjImport`:
 * the lines it reads, where a block's stem ends, what the options loop
 * leaves in `opts` and `correct`, and the shape of the output (consecutive
 * ids, answer letters, start lines, and the only warning that can occur).
 */
module ObjImportProps {
  import opened Text
  import Plain = ObjPlainText
  import opened ObjImport

  // ------------------------------------------------------------ the lines

  /** Every line the scan reads is non-empty and trimmed, so the `!l2` and `!l3` guards never fire. */
  lemma ImportLinesNonEmpty(rawText: string)
    ensures forall k :: 0 <= k < |ImportLines(rawText)| ==>
      ImportLines(rawText)[k] != "" && IsTrimmed(ImportLines(rawText)[k])
  {
    TrimAndDropEmptyTrimmed(Split(DeleteCr(rawText), '\n'));
  }

  /** `replace(/\r/g, "")` leaves no `\r`, never grows the text, and leaves text without `\r` alone. */
  lemma {:induction false} DeleteCrRemoves(s: string)
    ensures '\r' !in DeleteCr(s)
    ensures |DeleteCr(s)| <= |s|
    ensures '\r' !in s ==> DeleteCr(s) == s
    ensures DeleteCr("\r") == ""
  {
    if s != [] {
      DeleteCrRemoves(s[1..]);
      assert s == [s[0]] + s[1..];
    }
  }

  /** Deleting `\r` works character by character, so every other character is kept, in order. */
  lemma {:induction false} DeleteCrAppend(a: string, b: string)
    ensures DeleteCr(a + b) == DeleteCr(a) + DeleteCr(b)
  {
    if a != [] {
      assert (a + b)[1..] == a[1..] + b;
      DeleteCrAppend(a[1..], b);
    } else {
      assert a + b == b;
    }
  }

  /** No line the scan reads contains `\r` or `\n`. */
  lemma ImportLinesHaveNoBreaks(rawText: string)
    ensures forall k :: 0 <= k < |ImportLines(rawText)| ==>
      '\r' !in ImportLines(rawText)[k] && '\n' !in ImportLines(rawText)[k]
  {
    var text := DeleteCr(rawText);
    var pieces := Split(text, '\n');
    DeleteCrRemoves(rawText);
    SplitJoin(text, '\n');
    SplitAvoids(text, '\n', '\r');
    TrimAndDropEmptyAvoids(pieces, '\n');
    TrimAndDropEmptyAvoids(pieces, '\r');
  }

  // ------------------------------------------------------------ the stem

  /**
   * From any index `j` with an option line at most six lines on, the stem
   * loop stops without appending: a non-empty line that is neither option
   * nor answer has that option line in its own look-ahead window.
   */
  lemma {:induction false} StemStops(lines: seq<string>, j: nat, text: string, k: nat)
    requires j <= k < |lines| && k <= j + 6 && IsOptionLine(lines[k])
    ensures StemScan(lines, j, text).1 == text
    ensures lines[j] != "" ==> StemScan(lines, j, text).0 == j
    decreases k - j
  {
    if j < k && lines[j] == "" {
      StemStops(lines, j + 1, text, k);
    } else if j < k && !IsOptionLine(lines[j]) && !IsAnswerLine(lines[j]) {
      assert IsQuestionStart(lines, j);
    }
  }

  /**
   * The stem of a block is exactly its starting line, and over the lines the
   * scan reads the stem loop stops at the very next line: the append of a
   * continuation line is unreachable.
   */
  lemma StemIsStartLine(lines: seq<string>, i: nat)
    requires IsQuestionStart(lines, i)
    ensures StemScan(lines, i + 1, lines[i]).1 == lines[i]
    ensures lines[i + 1] != "" ==> StemScan(lines, i + 1, lines[i]).0 == i + 1
  {
    var k :| i < k <= i + 6 && k < |lines| && IsOptionLine(lines[k]);
    StemStops(lines, i + 1, lines[i], k);
  }

  // ------------------------------------------------------------ the options loop

  /** The trimmed text of the last option line for letter `l` among `lines[lo..hi]`, or `""`. */
  function LastOption(lines: seq<string>, lo: nat, hi: nat, l: string): string
    requires lo <= hi <= |lines|
    decreases hi
  {
    if hi == lo then ""
    else match OptionLineMatch(lines[hi - 1])
      case Some(m) => if [Upper(m.0)] == l then Trim(m.1) else LastOption(lines, lo, hi - 1, l)
      case None => LastOption(lines, lo, hi - 1, l)
  }

  /** The upper-cased letter of the last answer line among `lines[lo..hi]`, or `""`. */
  function LastAnswer(lines: seq<string>, lo: nat, hi: nat): string
    requires lo <= hi <= |lines|
    decreases hi
  {
    if hi == lo then ""
    else if OptionLineMatch(lines[hi - 1]).None? && AnswerLineMatch(lines[hi - 1]).Some? then
      [Upper(AnswerLineMatch(lines[hi - 1]).value)]
    else LastAnswer(lines, lo, hi - 1)
  }

  /** The lines the options loop consumes: empty, option or answer lines. */
  predicate InBlock(line: string) {
    line == "" || IsOptionLine(line) || IsAnswerLine(line)
  }

  /** The option and answer patterns capture a letter from `[A-Ea-e]`. */
  lemma MatchLetters(line: string)
    ensures OptionLineMatch(line).Some? ==> [Upper(OptionLineMatch(line).value.0)] in Plain.AnswerLetters
    ensures AnswerLineMatch(line).Some? ==> [Upper(AnswerLineMatch(line).value)] in Plain.AnswerLetters
  {
    if OptionLineMatch(line).Some? {
      Plain.UpperOptionLetter(OptionLineMatch(line).value.0);
    }
    if AnswerLineMatch(line).Some? {
      Plain.UpperOptionLetter(AnswerLineMatch(line).value);
    }
  }

  /** The options loop's state after `lines[lo..i]`: the last text per letter and the last answer. */
  ghost predicate LastWins(lines: seq<string>, lo: nat, i: nat, opts: map<string, string>, correct: string)
    requires lo <= i <= |lines|
  {
    (forall l :: l in Plain.AnswerLetters ==> Plain.Lookup(opts, l) == LastOption(lines, lo, i, l))
    && correct == LastAnswer(lines, lo, i)
  }

  /** The state after one more consumed line: its option or answer is now the last one. */
  function Consume(line: string, opts: map<string, string>, correct: string): (map<string, string>, string) {
    match OptionLineMatch(line)
    case Some(m) => (opts[[Upper(m.0)] := Trim(m.1)], correct)
    case None =>
      match AnswerLineMatch(line)
      case Some(c) => (opts, [Upper(c)])
      case None => (opts, correct)
  }

  /** On a block line the options loop moves one line on with the consumed state. */
  lemma ConsumeUnfold(lines: seq<string>, i: nat, opts: map<string, string>, correct: string, ws: seq<ImportWarning>)
    requires i < |lines| && InBlock(lines[i])
    ensures var c := Consume(lines[i], opts, correct);
      ReadOptions(lines, i, opts, correct, ws) == ReadOptions(lines, i + 1, c.0, c.1, ws)
  {
    MatchLetters(lines[i]);
  }

  /** Consuming one more line keeps `LastWins`. */
  lemma ConsumeLastWins(lines: seq<string>, lo: nat, i: nat, opts: map<string, string>, correct: string)
    requires lo <= i < |lines|
    requires LastWins(lines, lo, i, opts, correct)
    ensures var c := Consume(lines[i], opts, correct);
      LastWins(lines, lo, i + 1, c.0, c.1)
  {
  }

  /** The options loop consumes the maximal run of empty, option and answer lines, and pushes no warning. */
  lemma {:induction false} ReadOptionsRun(lines: seq<string>, i: nat,
                                           opts: map<string, string>, correct: string, ws: seq<ImportWarning>)
    requires i <= |lines|
    ensures var r := ReadOptions(lines, i, opts, correct, ws);
      r.warnings == ws
      && (forall k :: i <= k < r.next ==> InBlock(lines[k]))
      && (r.next < |lines| ==> !InBlock(lines[r.next]))
    decreases |lines| - i
  {
    if i < |lines| && InBlock(lines[i]) {
      var c := Consume(lines[i], opts, correct);
      ConsumeUnfold(lines, i, opts, correct, ws);
      ReadOptionsRun(lines, i + 1, c.0, c.1, ws);
    }
  }

  /**
   * Each slot ends with the text of the last option line for its letter and
   * `correct` with the last answer letter, wherever it stood in the block.
   */
  lemma {:induction false} ReadOptionsLastWins(lines: seq<string>, lo: nat, i: nat,
                                                opts: map<string, string>, correct: string, ws: seq<ImportWarning>)
    requires lo <= i <= |lines|
    requires LastWins(lines, lo, i, opts, correct)
    ensures var r := ReadOptions(lines, i, opts, correct, ws);
      LastWins(lines, lo, r.next, r.opts, r.correct)
    decreases |lines| - i
  {
    if i < |lines| && InBlock(lines[i]) {
      var c := Consume(lines[i], opts, correct);
      ConsumeUnfold(lines, i, opts, correct, ws);
      ConsumeLastWins(lines, lo, i, opts, correct);
      ReadOptionsLastWins(lines, lo, i + 1, c.0, c.1, ws);
    }
  }

  /** A block's options loop, started from the empty slots, leaves each slot holding the last text for its letter. */
  lemma BlockOptions(lines: seq<string>, lo: nat, ws: seq<ImportWarning>)
    requires lo <= |lines|
    ensures var r := ReadOptions(lines, lo, InitialOptions, "", ws);
      LastWins(lines, lo, r.next, r.opts, r.correct)
      && r.warnings == ws
      && (forall k :: lo <= k < r.next ==> InBlock(lines[k]))
      && (r.next < |lines| ==> !InBlock(lines[r.next]))
  {
    ReadOptionsRun(lines, lo, InitialOptions, "", ws);
    ReadOptionsLastWins(lines, lo, lo, InitialOptions, "", ws);
  }

  /** The last answer of a block is empty or one of A–E. */
  lemma {:induction false} LastAnswerValid(lines: seq<string>, lo: nat, hi: nat)
    requires lo <= hi <= |lines|
    ensures Plain.IsCorrectValue(LastAnswer(lines, lo, hi))
    decreases hi
  {
    if hi > lo {
      MatchLetters(lines[hi - 1]);
      LastAnswerValid(lines, lo, hi - 1);
    }
  }

  // ------------------------------------------------------------ the output

  /** Some option slot of `q` has text. */
  predicate HasOptionText(q: ImportedQuestion) {
    Trim(q.optionA) != "" || Trim(q.optionB) != "" || Trim(q.optionC) != ""
    || Trim(q.optionD) != "" || Trim(q.optionE) != ""
  }

  /** `s` is a line at which a question starts. */
  ghost predicate IsStartLine(lines: seq<string>, s: string) {
    exists j: nat :: IsQuestionStart(lines, j) && lines[j] == s
  }

  /**
   * The output so far: ids 1, 2, 3, … in order; every `correct` empty or
   * one of A–E; every question has some option text and its text is a
   * starting line; every warning is a skipped block whose stem is a starting
   * line.
   */
  ghost predicate WellFormed(lines: seq<string>, qs: seq<ImportedQuestion>, ws: seq<ImportWarning>) {
    (forall k :: 0 <= k < |qs| ==> qs[k].id == k + 1)
    && (forall k :: 0 <= k < |qs| ==> Plain.IsCorrectValue(qs[k].correct))
    && (forall k :: 0 <= k < |qs| ==> HasOptionText(qs[k]) && IsStartLine(lines, qs[k].text))
    && (forall k :: 0 <= k < |ws| ==> ws[k].SkippedBlock? && IsStartLine(lines, ws[k].stem))
  }

  /** Emitting one well-formed question keeps the output well formed. */
  lemma EmitWellFormed(lines: seq<string>, qs: seq<ImportedQuestion>, ws: seq<ImportWarning>, q: ImportedQuestion)
    requires WellFormed(lines, qs, ws)
    requires q.id == |qs| + 1 && Plain.IsCorrectValue(q.correct) && HasOptionText(q) && IsStartLine(lines, q.text)
    ensures WellFormed(lines, qs + [q], ws)
  {
    forall k | 0 <= k < |qs + [q]|
      ensures (qs + [q])[k].id == k + 1 && Plain.IsCorrectValue((qs + [q])[k].correct)
        && HasOptionText((qs + [q])[k]) && IsStartLine(lines, (qs + [q])[k].text)
    {
      if k < |qs| {
        assert (qs + [q])[k] == qs[k];
      }
    }
  }

  /** Skipping one block keeps the output well formed. */
  lemma SkipWellFormed(lines: seq<string>, qs: seq<ImportedQuestion>, ws: seq<ImportWarning>, stem: string)
    requires WellFormed(lines, qs, ws) && IsStartLine(lines, stem)
    ensures WellFormed(lines, qs, ws + [SkippedBlock(stem)])
  {
    forall k | 0 <= k < |ws + [SkippedBlock(stem)]|
      ensures (ws + [SkippedBlock(stem)])[k].SkippedBlock? && IsStartLine(lines, (ws + [SkippedBlock(stem)])[k].stem)
    {
      if k < |ws| {
        assert (ws + [SkippedBlock(stem)])[k] == ws[k];
      }
    }
  }

  /** One block of the outer loop, starting at `i`, keeps the output well formed. */
  lemma BlockWellFormed(lines: seq<string>, i: nat, qs: seq<ImportedQuestion>, ws: seq<ImportWarning>)
    requires IsQuestionStart(lines, i) && WellFormed(lines, qs, ws)
    ensures var stem := StemScan(lines, i + 1, lines[i]);
      var r := ReadOptions(lines, stem.0, InitialOptions, "", ws);
      if !HasAnyOption(r.opts) then WellFormed(lines, qs, r.warnings + [SkippedBlock(stem.1)])
      else WellFormed(lines, qs + [Block(|qs| + 1, stem.1, r.opts, r.correct)], r.warnings)
  {
    var stem := StemScan(lines, i + 1, lines[i]);
    StemIsStartLine(lines, i);
    assert IsStartLine(lines, stem.1);
    BlockOptions(lines, stem.0, ws);
    var r := ReadOptions(lines, stem.0, InitialOptions, "", ws);
    LastAnswerValid(lines, stem.0, r.next);
    if !HasAnyOption(r.opts) {
      SkipWellFormed(lines, qs, r.warnings, stem.1);
    } else {
      EmitWellFormed(lines, qs, r.warnings, Block(|qs| + 1, stem.1, r.opts, r.correct));
    }
  }

  /** The outer loop keeps the output well formed, with the id counter one past the last id. */
  lemma {:induction false} CollectWellFormed(lines: seq<string>, i: nat, qs: seq<ImportedQuestion>, ws: seq<ImportWarning>)
    requires i <= |lines| && WellFormed(lines, qs, ws)
    ensures WellFormed(lines, CollectFrom(lines, i, |qs| + 1, qs, ws).questions, CollectFrom(lines, i, |qs| + 1, qs, ws).warnings)
    decreases |lines| - i
  {
    if i < |lines| {
      if !IsQuestionStart(lines, i) {
        CollectWellFormed(lines, i + 1, qs, ws);
      } else {
        var stem := StemScan(lines, i + 1, lines[i]);
        var r := ReadOptions(lines, stem.0, InitialOptions, "", ws);
        BlockWellFormed(lines, i, qs, ws);
        if !HasAnyOption(r.opts) {
          CollectWellFormed(lines, r.next, qs, r.warnings + [SkippedBlock(stem.1)]);
        } else {
          CollectWellFormed(lines, r.next, qs + [Block(|qs| + 1, stem.1, r.opts, r.correct)], r.warnings);
        }
      }
    }
  }

  /**
   * The handler's output: ids are 1, 2, 3, … in emission order (skipped
   * blocks take none), every `correct` is empty or one of A–E, every
   * question has some option text and a starting line as its text, and every
   * warning reports a skipped block by its starting line — the "Invalid
   * answer format" warning never occurs.
   */
  lemma ImportWellFormed(rawText: string)
    ensures WellFormed(ImportLines(rawText), Import(rawText).questions, Import(rawText).warnings)
  {
    CollectWellFormed(ImportLines(rawText), 0, [], []);
  }

  /** A skipped block's warning quotes at most the first 50 characters of its stem. */
  lemma SkippedMessageQuotesPrefix(stem: string)
    ensures |Prefix(stem, 50)| <= 50 && Prefix(stem, 50) <= stem
    ensures |stem| <= 50 ==> Prefix(stem, 50) == stem
  {
  }

  // ------------------------------------------------------ multi-line stems

  /**
   * The stem loop as its comments describe it: each line up to the first
   * option or answer line continues the stem.
   */
  function JoinedStem(lines: seq<string>, i: nat, text: string): (r: (nat, string))
    requires i <= |lines|
    ensures i <= r.0 <= |lines|
    decreases |lines| - i
  {
    if i == |lines| then (i, text)
    else if lines[i] == "" then JoinedStem(lines, i + 1, text)
    else if IsOptionLine(lines[i]) || IsAnswerLine(lines[i]) then (i, text)
    else JoinedStem(lines, i + 1, text + " " + lines[i])
  }

  /** Each non-empty line of `ls`, preceded by one space. */
  function Spaced(ls: seq<string>): string {
    if ls == [] then ""
    else Spaced(ls[..|ls| - 1]) + (if ls[|ls| - 1] == "" then "" else " " + ls[|ls| - 1])
  }

  lemma {:induction false} SpacedCons(x: string, ls: seq<string>)
    ensures Spaced([x] + ls) == (if x == "" then "" else " " + x) + Spaced(ls)
    decreases |ls|
  {
    if ls != [] {
      assert ([x] + ls)[..|[x] + ls| - 1] == [x] + ls[..|ls| - 1];
      SpacedCons(x, ls[..|ls| - 1]);
    }
  }

  /** The corrected stem loop stops at the first option or answer line at or after `i`. */
  lemma {:induction false} JoinedStemStops(lines: seq<string>, i: nat, text: string)
    requires i <= |lines|
    ensures var r := JoinedStem(lines, i, text);
      (forall k :: i <= k < r.0 ==> !IsOptionLine(lines[k]) && !IsAnswerLine(lines[k]))
      && (r.0 < |lines| ==> IsOptionLine(lines[r.0]) || IsAnswerLine(lines[r.0]))
    decreases |lines| - i
  {
    if i < |lines| && !IsOptionLine(lines[i]) && !IsAnswerLine(lines[i]) {
      JoinedStemStops(lines, i + 1, if lines[i] == "" then text else text + " " + lines[i]);
    }
  }

  /** The corrected stem loop's text: the starting text, then each line it passed, one space apart. */
  lemma {:induction false} JoinedStemText(lines: seq<string>, i: nat, text: string)
    requires i <= |lines|
    ensures JoinedStem(lines, i, text).1 == text + Spaced(lines[i..JoinedStem(lines, i, text).0])
    decreases |lines| - i
  {
    var r := JoinedStem(lines, i, text);
    if i < |lines| && !IsOptionLine(lines[i]) && !IsAnswerLine(lines[i]) {
      var text' := if lines[i] == "" then text else text + " " + lines[i];
      JoinedStemText(lines, i + 1, text');
      assert lines[i..r.0] == [lines[i]] + lines[i + 1..r.0];
      SpacedCons(lines[i], lines[i + 1..r.0]);
    } else {
      assert lines[i..r.0] == [];
    }
  }

  /**
   * The corrected stem loop joins every line before the first option or
   * answer line to the stem, one space apart, and stops at that line.
   */
  lemma JoinedStemSpec(lines: seq<string>, i: nat, text: string)
    requires i <= |lines|
    ensures var r := JoinedStem(lines, i, text);
      r.1 == text + Spaced(lines[i..r.0])
      && (forall k :: i <= k < r.0 ==> !IsOptionLine(lines[k]) && !IsAnswerLine(lines[k]))
      && (r.0 < |lines| ==> IsOptionLine(lines[r.0]) || IsAnswerLine(lines[r.0]))
  {
    JoinedStemStops(lines, i, text);
    JoinedStemText(lines, i, text);
  }

  /**
   * A two-line stem: the scan as written drops its first line into a
   * "skipped block" warning and emits the question with the second line as
   * its text.
   */
  lemma ContinuationLineDropped()
    ensures var lines := ["What is", "two plus two?", "A. 3"];
      CollectFrom(lines, 0, 1, [], []) ==
        ImportResult([ImportedQuestion(1, "two plus two?", "3", "", "", "", "", "")], [SkippedBlock("What is")])
  {
    DroppedFirstBlock();
    DroppedSecondBlock();
  }

  /** The first block, "What is", is followed by a question start, so it has no option and is skipped. */
  lemma DroppedFirstBlock()
    ensures var lines := ["What is", "two plus two?", "A. 3"];
      CollectFrom(lines, 0, 1, [], []) == CollectFrom(lines, 1, 1, [], [SkippedBlock("What is")])
  {
    var lines := ["What is", "two plus two?", "A. 3"];
    OptionLineA3();
    assert lines[2] == "A. 3" && IsOptionLine(lines[2]);
    assert !IsOptionLine(lines[0]) && !IsAnswerLine(lines[0]);
    assert !IsOptionLine(lines[1]) && !IsAnswerLine(lines[1]);
    assert IsQuestionStart(lines, 0);
    assert IsQuestionStart(lines, 1);
    assert StemScan(lines, 1, lines[0]) == (1, "What is");
    assert ReadOptions(lines, 1, InitialOptions, "", []) == OptionsRead(1, InitialOptions, "", []);
    InitialOptionsBlank();
    assert [] + [SkippedBlock("What is")] == [SkippedBlock("What is")];
  }

  /** The second block, "two plus two?", has option A and is the only question emitted. */
  lemma DroppedSecondBlock()
    ensures var lines := ["What is", "two plus two?", "A. 3"];
      var ws := [SkippedBlock("What is")];
      CollectFrom(lines, 1, 1, [], ws)
        == ImportResult([ImportedQuestion(1, "two plus two?", "3", "", "", "", "", "")], ws)
  {
    var lines := ["What is", "two plus two?", "A. 3"];
    var ws := [SkippedBlock("What is")];
    var opts := InitialOptions["A" := "3"];
    var q := ImportedQuestion(1, "two plus two?", "3", "", "", "", "", "");
    OptionLineA3();
    assert lines[2] == "A. 3" && IsOptionLine(lines[2]);
    assert !IsOptionLine(lines[1]) && !IsAnswerLine(lines[1]);
    assert IsQuestionStart(lines, 1);
    assert !IsQuestionStart(lines, 2);
    assert StemScan(lines, 2, lines[1]) == (2, "two plus two?");
    assert Trim("3") == "3";
    assert ReadOptions(lines, 2, InitialOptions, "", ws) == OptionsRead(3, opts, "", ws);
    OnlyOptionA("3");
    assert HasAnyOption(opts);
    assert [] + [q] == [q];
    assert CollectFrom(lines, 3, 2, [q], ws) == ImportResult([q], ws);
  }

  /** `A. 3` is an option line giving option A the text `3`. */
  lemma OptionLineA3()
    ensures OptionLineMatch("A. 3") == Some(('A', "3")) && IsOptionLine("A. 3")
  {
    var line := "A. 3";
    assert SeparatorRunEnd(line, 1) == 3;
    assert line[3..] == "3";
  }

  /** A block starts with five blank options, so it has none. */
  lemma InitialOptionsBlank()
    ensures Plain.Lookup(InitialOptions, "A") == "" && Plain.Lookup(InitialOptions, "B") == ""
      && Plain.Lookup(InitialOptions, "C") == "" && Plain.Lookup(InitialOptions, "D") == ""
      && Plain.Lookup(InitialOptions, "E") == ""
    ensures !HasAnyOption(InitialOptions)
  {
    assert Trim("") == "";
  }

  /** A block whose only option is A records `v` under A and blanks elsewhere. */
  lemma OnlyOptionA(v: string)
    ensures var opts := InitialOptions["A" := v];
      Block(1, "two plus two?", opts, "") == ImportedQuestion(1, "two plus two?", v, "", "", "", "", "")
  {
    InitialOptionsBlank();
  }

  /** On the same lines the corrected stem loop keeps both lines of the stem. */
  lemma ContinuationLineJoined()
    ensures var lines := ["What is", "two plus two?", "A. 3"];
      JoinedStem(lines, 1, lines[0]) == (2, "What is two plus two?")
  {
    var lines := ["What is", "two plus two?", "A. 3"];
    assert SeparatorRunEnd(lines[2], 1) == 3;
    assert lines[2][3..] == "3";
    assert IsOptionLine(lines[2]);
    assert !IsOptionLine(lines[1]) && !IsAnswerLine(lines[1]);
    assert lines[0] + " " + lines[1] == "What is two plus two?";
  }
}
