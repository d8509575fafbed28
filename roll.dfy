/**
 * `generateRollNumber` (src/utils/roll.ts): the roll number
 * `adx-<year>-<serial>`, where the serial is one past the number of students
 * created in the current year, zero-padded to at least three digits. The
 * clock is the parameter `year`; the count is taken over the creation years
 * of the stored students, since the window `[year-01-01, (year+1)-01-01)` in
 * UTC holds exactly the instants of that UTC year.
 */
module Roll {
  import opened Text

  /** `prisma.student.count` over the creation window of `year`. */
  function CountThisYear(createdYears: seq<int>, year: int): (n: nat)
    ensures n <= |createdYears|
  {
    if createdYears == [] then 0
    else
      var last := createdYears[|createdYears| - 1];
      CountThisYear(createdYears[..|createdYears| - 1], year) + (if last == year then 1 else 0)
  }

  /** `String(next).padStart(3, "0")` */
  function Serial(next: nat): string {
    PadStart(Dec(next), 3, '0')
  }

  /** `adx-${year}-${serial}` for a count of `countThisYear` students. */
  function RollFor(year: int, countThisYear: nat): (r: string)
    ensures var head := "adx-" + NumberToString(year) + "-";
      |head| + 3 <= |r| && r[..|head|] == head
  {
    "adx-" + NumberToString(year) + "-" + Serial(countThisYear + 1)
  }

  /** The roll number `generateRollNumber` returns: its serial reads back as this year's count plus one. */
  function GenerateRollNumber(year: int, createdYears: seq<int>): (r: string)
    ensures var n := ParseInt(LastSegment(r, '-'));
      n.Some? && n.value == CountThisYear(createdYears, year) + 1
  {
    var count := CountThisYear(createdYears, year);
    RollSerialRoundTrip(year, count);
    RollFor(year, count)
  }

  // ------------------------------------------------------------ properties

  /** The serial is the digits of `next`, zero-padded to at least three, never cut. */
  lemma SerialDigits(next: nat)
    ensures AllDigits(Serial(next)) && DigitsValue(Serial(next)) == next
    ensures |Serial(next)| == if |Dec(next)| >= 3 then |Dec(next)| else 3
    ensures '-' !in Serial(next)
  {
    SerialValue(next);
  }

  /** The serial after the last `-` reads back as the count plus one. */
  lemma RollSerialRoundTrip(year: int, countThisYear: nat)
    ensures LastSegment(RollFor(year, countThisYear), '-') == Serial(countThisYear + 1)
    ensures ParseInt(LastSegment(RollFor(year, countThisYear), '-')) == Some(countThisYear + 1)
  {
    var s := Serial(countThisYear + 1);
    SerialDigits(countThisYear + 1);
    assert RollFor(year, countThisYear) == ("adx-" + NumberToString(year)) + ['-'] + s;
    LastSegmentOfSuffix("adx-" + NumberToString(year), '-', s);
    ParseIntOfDigits(s);
  }

  /** No student yet this year gives serial `001`. */
  lemma FirstOfTheYear(year: int, createdYears: seq<int>)
    requires forall k :: 0 <= k < |createdYears| ==> createdYears[k] != year
    ensures GenerateRollNumber(year, createdYears) == "adx-" + NumberToString(year) + "-001"
  {
    NoneThisYear(year, createdYears);
    assert Dec(1) == "1";
  }

  lemma {:induction false} NoneThisYear(year: int, createdYears: seq<int>)
    requires forall k :: 0 <= k < |createdYears| ==> createdYears[k] != year
    ensures CountThisYear(createdYears, year) == 0
  {
    if createdYears != [] {
      NoneThisYear(year, createdYears[..|createdYears| - 1]);
    }
  }

  /** A student created this year moves the next serial on by one; one from another year does not. */
  lemma CountAfterCreate(year: int, createdYears: seq<int>, y: int)
    ensures CountThisYear(createdYears + [y], year) ==
      CountThisYear(createdYears, year) + (if y == year then 1 else 0)
  {
    assert (createdYears + [y])[..|createdYears|] == createdYears;
  }

  /** For a fixed year, the roll number determines the count: distinct counts give distinct roll numbers. */
  lemma RollInjective(year: int, c1: nat, c2: nat)
    requires RollFor(year, c1) == RollFor(year, c2)
    ensures c1 == c2
  {
    RollSerialRoundTrip(year, c1);
    RollSerialRoundTrip(year, c2);
  }

  /** A larger count gives a serial of larger value. */
  lemma {:induction false} SerialIncreasing(c1: nat, c2: nat)
    requires c1 < c2
    ensures AllDigits(Serial(c1 + 1)) && AllDigits(Serial(c2 + 1))
      && DigitsValue(Serial(c1 + 1)) < DigitsValue(Serial(c2 + 1))
  {
    SerialValue(c1 + 1);
    SerialValue(c2 + 1);
  }

  /** The serial reads back as the number it pads. */
  lemma {:induction false} SerialValue(next: nat)
    ensures AllDigits(Serial(next)) && DigitsValue(Serial(next)) == next
  {
    ZeroPadValue(Dec(next), 3);
  }

  /** A larger number never gives a shorter serial. */
  lemma {:induction false} SerialLengthMonotone(a: nat, b: nat)
    requires a <= b
    ensures |Serial(a)| <= |Serial(b)|
  {
    DecLengthMonotone(a, b);
  }

  /** More digits only for larger numbers. */
  lemma {:induction false} DecLengthMonotone(a: nat, b: nat)
    requires a <= b
    ensures |Dec(a)| <= |Dec(b)|
  {
    if a >= 1 {
      DecBounds(a);
      DecBounds(b);
      Pow10Order(|Dec(a)| - 1, |Dec(b)|);
    }
  }

  /** Powers of ten are ordered as their exponents. */
  lemma {:induction false} Pow10Order(i: nat, j: nat)
    requires Pow10(i) < Pow10(j)
    ensures i < j
    decreases j
  {
    if i > 0 && j > 0 {
      Pow10Order(i - 1, j - 1);
    }
  }
}
