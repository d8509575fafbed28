/**
 * `generateSequentialRollNumber` (src/utils/rollNumber.ts): the next global
 * roll number `ADX-<serial>`, where the serial is one past the number found
 * after `ADX-` in the most recent student's roll number, zero-padded to at
 * least three digits. The database lookup is the parameter `lastRoll`:
 * `None` when there is no student or its roll number is null.
 */
module RollNumber {
  import opened Text

  /** `ADX-` followed by a digit starts at position `p` of `s`. */
  predicate AdxAt(s: string, p: nat) {
    p + 5 <= |s| && s[p..p + 4] == "ADX-" && IsDigit(s[p + 4])
  }

  /** `s.match(/ADX-(\d+)/)`: the digits after the leftmost `ADX-` that has any. */
  function FindAdxSerial(s: string): (r: Option<string>)
    ensures r.Some? ==> r.value != [] && AllDigits(r.value)
    decreases |s|
  {
    if |s| < 5 then None
    else if s[..4] == "ADX-" && IsDigit(s[4]) then Some(LeadingDigits(s[4..]))
    else FindAdxSerial(s[1..])
  }

  /** `nextNumber`: one past the matched serial, or 1. */
  function NextSerial(lastRoll: Option<string>): nat {
    if lastRoll.Some? && lastRoll.value != "" then
      match FindAdxSerial(lastRoll.value)
      case Some(d) => DigitsValue(d) + 1
      case None => 1
    else 1
  }

  /** `ADX-${String(n).padStart(3, "0")}` */
  function FormatRoll(n: nat): string {
    "ADX-" + PadStart(Dec(n), 3, '0')
  }

  /** The roll number `generateSequentialRollNumber` returns. */
  function GenerateSequentialRollNumber(lastRoll: Option<string>): (r: string)
    ensures |r| >= 7 && r[..4] == "ADX-"
  {
    FormatRoll(NextSerial(lastRoll))
  }

  // ------------------------------------------------------------ properties

  /**
   * The match is the leftmost one: the digits come right after an `ADX-` at
   * some position with no `ADX-<digit>` before it, and are the whole digit run;
   * no match means no `ADX-<digit>` anywhere.
   */
  lemma {:induction false} FindAdxSerialSpec(s: string)
    ensures FindAdxSerial(s).Some? ==>
      exists p: nat :: AdxAt(s, p) && (forall q: nat :: q < p ==> !AdxAt(s, q))
        && FindAdxSerial(s).value == LeadingDigits(s[p + 4..])
    ensures FindAdxSerial(s).None? ==> forall p: nat :: !AdxAt(s, p)
    decreases |s|
  {
    if |s| >= 5 && !(s[..4] == "ADX-" && IsDigit(s[4])) {
      FindAdxSerialSpec(s[1..]);
      assert !AdxAt(s, 0);
      forall p: nat | AdxAt(s[1..], p)
        ensures AdxAt(s, p + 1)
      {
        assert s[p + 1..p + 5] == s[1..][p..p + 4];
      }
      forall p: nat | p >= 1 && AdxAt(s, p)
        ensures AdxAt(s[1..], p - 1)
      {
        assert s[p..p + 4] == s[1..][p - 1..p + 3];
      }
      if FindAdxSerial(s).Some? {
        var p: nat :| AdxAt(s[1..], p) && (forall q: nat :: q < p ==> !AdxAt(s[1..], q))
          && FindAdxSerial(s[1..]).value == LeadingDigits(s[1..][p + 4..]);
        assert s[1..][p + 4..] == s[p + 5..];
        assert AdxAt(s, p + 1);
        assert forall q: nat :: q < p + 1 ==> !AdxAt(s, q);
      }
    } else if |s| >= 5 {
      assert AdxAt(s, 0);
    }
  }

  /** A formatted serial is its digits, zero-padded to at least three and never cut. */
  lemma FormatRollDigits(n: nat)
    ensures FormatRoll(n)[..4] == "ADX-"
    ensures var s := FormatRoll(n)[4..];
      AllDigits(s) && DigitsValue(s) == n && |s| == (if |Dec(n)| >= 3 then |Dec(n)| else 3)
      && s[|s| - |Dec(n)|..] == Dec(n)
  {
    ZeroPadValue(Dec(n), 3);
    assert FormatRoll(n)[4..] == PadStart(Dec(n), 3, '0');
  }

  /** With no previous student, or one whose roll number is empty, the first roll number is `ADX-001`. */
  lemma FirstRollNumber(lastRoll: Option<string>)
    requires lastRoll.None? || lastRoll.value == ""
    ensures GenerateSequentialRollNumber(lastRoll) == "ADX-001"
  {
    assert Dec(1) == "1";
  }

  /** A previous roll number holding `ADX-<digits>` gives that number plus one. */
  lemma NextAfterMatch(lastRoll: string, p: nat)
    requires AdxAt(lastRoll, p) && forall q: nat :: q < p ==> !AdxAt(lastRoll, q)
    ensures NextSerial(Some(lastRoll)) == DigitsValue(LeadingDigits(lastRoll[p + 4..])) + 1
  {
    FindAdxSerialSpec(lastRoll);
    if FindAdxSerial(lastRoll).Some? {
      var p': nat :| AdxAt(lastRoll, p') && (forall q: nat :: q < p' ==> !AdxAt(lastRoll, q))
        && FindAdxSerial(lastRoll).value == LeadingDigits(lastRoll[p' + 4..]);
      assert p' == p;
    }
  }

  /** A previous roll number without `ADX-<digit>` anywhere restarts the serial at 1. */
  lemma RestartWithoutMatch(lastRoll: string)
    requires forall p: nat :: !AdxAt(lastRoll, p)
    ensures GenerateSequentialRollNumber(Some(lastRoll)) == "ADX-001"
  {
    FindAdxSerialSpec(lastRoll);
    assert Dec(1) == "1";
  }

  /** The lower-case roll numbers of the year-based generators do not match, so the serial restarts. */
  lemma LowerCaseRollRestarts()
    ensures GenerateSequentialRollNumber(Some("adx-2025-003")) == "ADX-001"
  {
    var s := "adx-2025-003";
    forall p: nat
      ensures !AdxAt(s, p)
    {
      if p + 5 <= |s| {
        assert s[p..p + 4][0] == s[p];
        assert s[p] != 'A';
      }
    }
    RestartWithoutMatch(s);
  }

  /** Padding: 7 becomes `ADX-007` and 1000 stays `ADX-1000`. */
  lemma PaddingExamples()
    ensures FormatRoll(7) == "ADX-007"
    ensures FormatRoll(1000) == "ADX-1000"
  {
    assert Dec(7) == "7";
    assert Dec(1000) == Dec(100) + "0";
    assert Dec(100) == Dec(10) + "0";
    assert Dec(10) == "10";
  }

  /** Feeding a generated roll number back in as the last one gives the next serial. */
  lemma RoundTrip(lastRoll: Option<string>)
    ensures NextSerial(Some(GenerateSequentialRollNumber(lastRoll))) == NextSerial(lastRoll) + 1
  {
    FormatRollReadsBack(NextSerial(lastRoll));
  }

  /** The serial read back from `ADX-<n>` is `n`, so the next one is `n + 1`. */
  lemma FormatRollReadsBack(n: nat)
    ensures NextSerial(Some(FormatRoll(n))) == n + 1
  {
    var r := FormatRoll(n);
    FormatRollDigits(n);
    var s := r[4..];
    assert r == "ADX-" + s;
    LeadingDigitsOfDigits(s);
    assert r[..4] == "ADX-" && IsDigit(r[4]);
    assert FindAdxSerial(r) == Some(s);
  }

  /** Distinct serials give distinct roll numbers. */
  lemma FormatRollInjective(n: nat, m: nat)
    requires FormatRoll(n) == FormatRoll(m)
    ensures n == m
  {
    FormatRollDigits(n);
    FormatRollDigits(m);
  }
}
