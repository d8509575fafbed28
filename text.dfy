/**
 * The JavaScript string built-ins the backend relies on, stated on
 * `seq<char>`: whitespace as `trim` and `\s` see it, `trim`, `split` and
 * `join`, `String(n)`, `padStart` and `parseInt(s, 10)`.
 */
module Text {

  datatype Option<+T> = None | Some(value: T)

  /** An ECMAScript LineTerminator: a character that `.` in a regular expression does not match. */
  predicate IsLineTerminator(c: char) {
    c == '\n' || c == '\r' || c == '\U{2028}' || c == '\U{2029}'
  }

  /**
   * ECMAScript WhiteSpace or LineTerminator. This one set is what `\s`
   * matches, what `String.prototype.trim` removes and what `parseInt` skips.
   */
  predicate IsSpace(c: char) {
    || c == '\t' || c == '\U{000B}' || c == '\U{000C}' || c == ' '
    || c == '\U{00A0}' || c == '\U{FEFF}' || c == '\U{1680}'
    || ('\U{2000}' <= c <= '\U{200A}')
    || c == '\U{202F}' || c == '\U{205F}' || c == '\U{3000}'
    || IsLineTerminator(c)
  }

  predicate AllSpace(s: string) {
    forall i :: 0 <= i < |s| ==> IsSpace(s[i])
  }

  predicate NoLineTerminator(s: string) {
    forall i :: 0 <= i < |s| ==> !IsLineTerminator(s[i])
  }

  /** Neither starts nor ends with whitespace: what `trim` returns. */
  predicate IsTrimmed(s: string) {
    s == [] || (!IsSpace(s[0]) && !IsSpace(s[|s| - 1]))
  }

  /** Drops leading whitespace. */
  function TrimStart(s: string): string {
    if s != [] && IsSpace(s[0]) then TrimStart(s[1..]) else s
  }

  /** Drops trailing whitespace. */
  function TrimEnd(s: string): string {
    if s != [] && IsSpace(s[|s| - 1]) then TrimEnd(s[..|s| - 1]) else s
  }

  /** `String.prototype.trim`. */
  function Trim(s: string): string {
    TrimEnd(TrimStart(s))
  }

  /** What `TrimStart` leaves is the suffix of `s` after its longest all-whitespace prefix. */
  lemma {:induction false} TrimStartSpec(s: string)
    ensures |TrimStart(s)| <= |s| && TrimStart(s) == s[|s| - |TrimStart(s)|..]
    ensures AllSpace(s[..|s| - |TrimStart(s)|])
    ensures TrimStart(s) == [] || !IsSpace(TrimStart(s)[0])
  {
    if s != [] && IsSpace(s[0]) {
      var r := TrimStart(s[1..]);
      TrimStartSpec(s[1..]);
      assert s[..|s| - |r|] == [s[0]] + s[1..][..|s| - 1 - |r|];
    }
  }

  /** What `TrimEnd` leaves is the prefix of `s` before its longest all-whitespace suffix. */
  lemma {:induction false} TrimEndSpec(s: string)
    ensures |TrimEnd(s)| <= |s| && TrimEnd(s) == s[..|TrimEnd(s)|]
    ensures AllSpace(s[|TrimEnd(s)|..])
    ensures TrimEnd(s) == [] || !IsSpace(TrimEnd(s)[|TrimEnd(s)| - 1])
  {
    if s != [] && IsSpace(s[|s| - 1]) {
      var r := TrimEnd(s[..|s| - 1]);
      TrimEndSpec(s[..|s| - 1]);
      assert s[|r|..] == s[..|s| - 1][|r|..] + [s[|s| - 1]];
    }
  }

  /**
   * `trim` returns the middle of the input between a leading and a trailing
   * run of whitespace: a trimmed string, empty exactly when the input is all
   * whitespace.
   */
  lemma TrimSpec(s: string)
    ensures IsTrimmed(Trim(s))
    ensures Trim(s) == [] <==> AllSpace(s)
    ensures |Trim(s)| <= |s|
    ensures exists i, j :: 0 <= i <= j <= |s| && Trim(s) == s[i..j] && AllSpace(s[..i]) && AllSpace(s[j..])
  {
    var t := TrimStart(s);
    var r := TrimEnd(t);
    TrimStartSpec(s);
    TrimEndSpec(t);
    assert t != [] ==> t[0] == s[|s| - |t|];
    assert r == [] ==> AllSpace(s) by {
      if r == [] {
        assert AllSpace(t);
        assert s == s[..|s| - |t|] + t;
      }
    }
    var i := |s| - |t|;
    var j := i + |r|;
    assert r == s[i..j];
    assert s[j..] == t[|r|..];
  }

  /** A character that is not in the input is not in its trimmed form. */
  lemma TrimAvoids(s: string, x: char)
    requires x !in s
    ensures x !in Trim(s)
  {
    TrimSpec(s);
  }

  lemma {:induction false} TrimOfTrimmed(s: string)
    requires IsTrimmed(s)
    ensures Trim(s) == s
  {
    assert TrimStart(s) == s;
    assert TrimEnd(s) == s;
  }

  /** `s.split(sep)` for a one-character separator: never empty, and no piece holds `sep`. */
  function Split(s: string, sep: char): (pieces: seq<string>)
    ensures |pieces| >= 1
  {
    if s == [] then [[]]
    else
      var rest := Split(s[1..], sep);
      if s[0] == sep then [[]] + rest
      else [[s[0]] + rest[0]] + rest[1..]
  }

  /** No piece of a split holds the separator, and joining the pieces gives the string back. */
  lemma {:induction false} SplitJoin(s: string, sep: char)
    ensures forall k :: 0 <= k < |Split(s, sep)| ==> sep !in Split(s, sep)[k]
    ensures Join(Split(s, sep), [sep]) == s
  {
    if s != [] {
      var rest := Split(s[1..], sep);
      SplitJoin(s[1..], sep);
      if s[0] == sep {
        assert Join([[]] + rest, [sep]) == [] + [sep] + Join(rest, [sep]);
        assert s == [s[0]] + s[1..];
      } else {
        var pieces := [[s[0]] + rest[0]] + rest[1..];
        assert pieces == Split(s, sep);
        JoinConsFirst(rest, [sep], s[0]);
        assert s == [s[0]] + s[1..];
        forall k | 0 <= k < |pieces|
          ensures sep !in pieces[k]
        {
          if k > 0 {
            assert pieces[k] == rest[k];
          }
        }
      }
    }
  }

  /** `Array.prototype.join(sep)` on strings. */
  function Join(pieces: seq<string>, sep: string): string {
    if |pieces| == 0 then []
    else if |pieces| == 1 then pieces[0]
    else pieces[0] + sep + Join(pieces[1..], sep)
  }

  lemma {:induction false} JoinConsFirst(pieces: seq<string>, sep: string, c: char)
    requires |pieces| >= 1
    ensures Join([[c] + pieces[0]] + pieces[1..], sep) == [c] + Join(pieces, sep)
  {
    var p := [[c] + pieces[0]] + pieces[1..];
    assert p[1..] == pieces[1..];
  }

  /** `s.split(sep)[0]`: the text before the first `sep`, or all of `s`. */
  function FirstSegment(s: string, sep: char): (r: string)
    ensures r == Split(s, sep)[0]
    ensures sep !in r && |r| <= |s| && r == s[..|r|]
    ensures |r| < |s| ==> s[|r|] == sep
  {
    if s == [] then []
    else if s[0] == sep then []
    else [s[0]] + FirstSegment(s[1..], sep)
  }

  /** `s.split(sep).pop()`: the text after the last `sep`, or all of `s`. */
  function LastSegment(s: string, sep: char): (r: string)
    ensures sep !in r && |r| <= |s| && r == s[|s| - |r|..]
    ensures |r| < |s| ==> s[|s| - |r| - 1] == sep
  {
    if s == [] then []
    else if s[|s| - 1] == sep then []
    else
      var r := LastSegment(s[..|s| - 1], sep);
      r + [s[|s| - 1]]
  }

  /** Concatenates the pieces of a split with the separator in between. */
  lemma {:induction false} LastSegmentOfSuffix(a: string, sep: char, b: string)
    requires sep !in b
    ensures LastSegment(a + [sep] + b, sep) == b
  {
    if b == [] {
      assert (a + [sep] + b)[|a + [sep] + b| - 1] == sep;
    } else {
      var s := a + [sep] + b;
      assert s[..|s| - 1] == a + [sep] + b[..|b| - 1];
      LastSegmentOfSuffix(a, sep, b[..|b| - 1]);
      assert b[..|b| - 1] + [b[|b| - 1]] == b;
    }
  }

  /** Keeps every piece that is non-empty once trimmed, trimmed: `.map(l => l.trim()).filter(l => l !== "")`. */
  function TrimAndDropEmpty(pieces: seq<string>): (lines: seq<string>)
    ensures |lines| <= |pieces|
  {
    if pieces == [] then []
    else
      var t := Trim(pieces[|pieces| - 1]);
      TrimAndDropEmpty(pieces[..|pieces| - 1]) + (if t == [] then [] else [t])
  }

  /** Every line kept is non-empty and trimmed. */
  lemma {:induction false} TrimAndDropEmptyTrimmed(pieces: seq<string>)
    ensures forall k :: 0 <= k < |TrimAndDropEmpty(pieces)| ==>
      TrimAndDropEmpty(pieces)[k] != [] && IsTrimmed(TrimAndDropEmpty(pieces)[k])
  {
    if pieces != [] {
      TrimAndDropEmptyTrimmed(pieces[..|pieces| - 1]);
      TrimSpec(pieces[|pieces| - 1]);
    }
  }

  /** A character that no piece holds is in no kept line. */
  lemma {:induction false} TrimAndDropEmptyAvoids(pieces: seq<string>, x: char)
    requires forall k :: 0 <= k < |pieces| ==> x !in pieces[k]
    ensures forall k :: 0 <= k < |TrimAndDropEmpty(pieces)| ==> x !in TrimAndDropEmpty(pieces)[k]
  {
    if pieces != [] {
      TrimAndDropEmptyAvoids(pieces[..|pieces| - 1], x);
      TrimAvoids(pieces[|pieces| - 1], x);
    }
  }

  lemma {:induction false} AllSpacePiecesDropped(pieces: seq<string>)
    requires forall k :: 0 <= k < |pieces| ==> AllSpace(pieces[k])
    ensures TrimAndDropEmpty(pieces) == []
  {
    if pieces != [] {
      AllSpacePiecesDropped(pieces[..|pieces| - 1]);
      TrimSpec(pieces[|pieces| - 1]);
    }
  }

  /** Every piece of a split of an all-whitespace string is all whitespace. */
  /** A character that is not in the string is in none of its pieces. */
  lemma {:induction false} SplitAvoids(s: string, sep: char, x: char)
    requires x !in s
    ensures forall k :: 0 <= k < |Split(s, sep)| ==> x !in Split(s, sep)[k]
  {
    if s != [] {
      SplitAvoids(s[1..], sep, x);
      var rest := Split(s[1..], sep);
      if s[0] != sep {
        assert x !in [s[0]] + rest[0];
        assert forall k :: 1 <= k < |rest| ==> (rest[1..])[k - 1] == rest[k];
      }
    }
  }

  lemma {:induction false} SplitOfSpace(s: string, sep: char)
    requires AllSpace(s)
    ensures forall k :: 0 <= k < |Split(s, sep)| ==> AllSpace(Split(s, sep)[k])
  {
    if s != [] {
      SplitOfSpace(s[1..], sep);
    }
  }

  // ---------------------------------------------------------------- numbers

  /** JavaScript truthiness of an optional string: present and non-empty. */
  predicate Truthy(s: Option<string>) {
    s.Some? && s.value != ""
  }

  /** JavaScript truthiness of an optional number: present and non-zero. */
  predicate TruthyNumber(n: Option<int>) {
    n.Some? && n.value != 0
  }

  predicate IsDigit(c: char) {
    '0' <= c <= '9'
  }

  predicate AllDigits(s: string) {
    forall i :: 0 <= i < |s| ==> IsDigit(s[i])
  }

  function DigitValue(c: char): nat
    requires IsDigit(c)
  {
    (c as int) - ('0' as int)
  }

  function DigitChar(d: nat): (c: char)
    requires d < 10
    ensures IsDigit(c) && DigitValue(c) == d
  {
    (('0' as int) + d) as char
  }

  /** The value of a decimal digit string, most significant digit first. */
  function DigitsValue(s: string): nat
    requires AllDigits(s)
  {
    if s == [] then 0 else 10 * DigitsValue(s[..|s| - 1]) + DigitValue(s[|s| - 1])
  }

  function Pow10(k: nat): (p: nat)
    ensures p >= 1
  {
    if k == 0 then 1 else 10 * Pow10(k - 1)
  }

  /** `String(n)` for a non-negative integer: its decimal digits, without leading zeros. */
  function Dec(n: nat): (r: string)
    ensures 1 <= |r| && AllDigits(r)
    ensures DigitsValue(r) == n
    ensures r[0] == '0' ==> n == 0
  {
    if n < 10 then
      [DigitChar(n)]
    else
      var r := Dec(n / 10) + [DigitChar(n % 10)];
      assert r[..|r| - 1] == Dec(n / 10);
      r
  }

  /** `String(n)` has as many digits as the power of ten just above `n` says. */
  lemma {:induction false} DecBounds(n: nat)
    ensures n < Pow10(|Dec(n)|) && (n >= 1 ==> Pow10(|Dec(n)| - 1) <= n)
    decreases n
  {
    if n >= 10 {
      DecBounds(n / 10);
      assert |Dec(n)| == |Dec(n / 10)| + 1;
    }
  }

  /** `String(x)` for an integer of either sign. */
  function NumberToString(x: int): string {
    if x < 0 then "-" + Dec(-x) else Dec(x)
  }

  function Repeat(c: char, k: nat): (r: string)
    ensures |r| == k && forall i :: 0 <= i < k ==> r[i] == c
  {
    if k == 0 then [] else [c] + Repeat(c, k - 1)
  }

  /** `s.padStart(width, fill)` with a one-character fill: widens `s` on the left, never shortens it. */
  function PadStart(s: string, width: nat, fill: char): (r: string)
    ensures |r| == if |s| >= width then |s| else width
    ensures r[|r| - |s|..] == s
    ensures forall i :: 0 <= i < |r| - |s| ==> r[i] == fill
  {
    if |s| >= width then s else Repeat(fill, width - |s|) + s
  }

  lemma {:induction false} DigitsValueAppend(a: string, b: string)
    requires AllDigits(a) && AllDigits(b)
    ensures AllDigits(a + b)
    ensures DigitsValue(a + b) == DigitsValue(a) * Pow10(|b|) + DigitsValue(b)
  {
    if b == [] {
      assert a + b == a;
    } else {
      var ab := a + b;
      var b' := b[..|b| - 1];
      var last := DigitValue(b[|b| - 1]);
      assert ab[..|ab| - 1] == a + b';
      assert ab[|ab| - 1] == b[|b| - 1];
      DigitsValueAppend(a, b');
      assert DigitsValue(ab) == 10 * DigitsValue(a + b') + last;
      assert DigitsValue(b) == 10 * DigitsValue(b') + last;
      assert Pow10(|b|) == 10 * Pow10(|b'|);
      ShiftArith(DigitsValue(a), Pow10(|b'|), DigitsValue(b'), last);
    }
  }

  lemma ShiftArith(x: nat, p: nat, y: nat, d: nat)
    ensures 10 * (x * p + y) + d == x * (10 * p) + (10 * y + d)
  {
  }

  lemma {:induction false} ZerosValue(k: nat)
    ensures AllDigits(Repeat('0', k)) && DigitsValue(Repeat('0', k)) == 0
  {
    if k > 0 {
      ZerosValue(k - 1);
      DigitsValueAppend("0", Repeat('0', k - 1));
    }
  }

  /** Left padding with zeros keeps the digits' value. */
  lemma {:induction false} ZeroPadValue(s: string, width: nat)
    requires AllDigits(s)
    ensures AllDigits(PadStart(s, width, '0'))
    ensures DigitsValue(PadStart(s, width, '0')) == DigitsValue(s)
  {
    if |s| < width {
      ZerosValue(width - |s|);
      DigitsValueAppend(Repeat('0', width - |s|), s);
    }
  }

  /** The longest prefix of `s` made of decimal digits. */
  function LeadingDigits(s: string): (d: string)
    ensures AllDigits(d) && |d| <= |s| && d == s[..|d|]
    ensures |d| < |s| ==> !IsDigit(s[|d|])
  {
    if s != [] && IsDigit(s[0]) then [s[0]] + LeadingDigits(s[1..]) else []
  }

  /**
   * `parseInt(s, 10)`: skip leading whitespace, an optional sign, then the
   * longest run of digits; `None` stands for NaN (no digit at all).
   */
  function ParseInt(s: string): (r: Option<int>)
    ensures r.None? <==> LeadingDigits(SignlessBody(TrimStart(s))) == []
  {
    var t := TrimStart(s);
    var d := LeadingDigits(SignlessBody(t));
    if d == [] then None
    else if t[0] == '-' then Some(-(DigitsValue(d) as int))
    else Some(DigitsValue(d))
  }

  function SignlessBody(t: string): string {
    if t != [] && (t[0] == '-' || t[0] == '+') then t[1..] else t
  }

  /** Dropping leading whitespace from whitespace followed by a non-whitespace start leaves the rest. */
  lemma {:induction false} TrimStartAfterSpace(w: string, x: string)
    requires AllSpace(w)
    requires x == [] || !IsSpace(x[0])
    ensures TrimStart(w + x) == x
  {
    if w == [] {
      assert w + x == x;
    } else {
      assert (w + x)[1..] == w[1..] + x;
      TrimStartAfterSpace(w[1..], x);
    }
  }

  /** The digit run of `d + rest`, when `rest` does not start with a digit, is `d`. */
  lemma {:induction false} LeadingDigitsOfRun(d: string, rest: string)
    requires AllDigits(d)
    requires rest == [] || !IsDigit(rest[0])
    ensures LeadingDigits(d + rest) == d
  {
    if d == [] {
      assert d + rest == rest;
    } else {
      assert (d + rest)[1..] == d[1..] + rest;
      LeadingDigitsOfRun(d[1..], rest);
    }
  }

  /**
   * `parseInt` skips leading whitespace, reads an optional sign and then the
   * whole run of digits, ignoring whatever follows it.
   */
  lemma ParseIntOfSignedRun(w: string, sg: string, d: string, rest: string)
    requires AllSpace(w)
    requires sg == "" || sg == "+" || sg == "-"
    requires d != [] && AllDigits(d)
    requires rest == [] || !IsDigit(rest[0])
    ensures ParseInt(w + sg + d + rest) == Some(if sg == "-" then -(DigitsValue(d) as int) else DigitsValue(d) as int)
  {
    var x := sg + (d + rest);
    assert w + sg + d + rest == w + x;
    var c := if sg == "" then d[0] else sg[0];
    assert x[0] == c;
    TrimStartAfterSpace(w, x);
    assert SignlessBody(x) == d + rest by {
      if sg == "" {
        assert x == d + rest;
      } else {
        assert x[1..] == d + rest;
      }
    }
    LeadingDigitsOfRun(d, rest);
    ParseIntOfBody(w + x, x, d);
  }

  /** `parseInt` once the whitespace is skipped and the digit run is known. */
  lemma ParseIntOfBody(s: string, x: string, d: string)
    requires TrimStart(s) == x && d != [] && LeadingDigits(SignlessBody(x)) == d
    ensures x != []
    ensures ParseInt(s) == Some(if x[0] == '-' then -(DigitsValue(d) as int) else DigitsValue(d) as int)
  {
  }

  /** Without a minus sign anywhere, `parseInt` never yields a negative number. */
  lemma {:induction false} ParseIntNonNegative(s: string)
    requires '-' !in s
    requires ParseInt(s).Some?
    ensures ParseInt(s).value >= 0
  {
    var t := TrimStart(s);
    TrimStartSpec(s);
    if t != [] {
      assert t[0] == s[|s| - |t|];
    }
  }

  /** A non-empty digit string parses back to its value. */
  lemma {:induction false} ParseIntOfDigits(s: string)
    requires s != [] && AllDigits(s)
    ensures ParseInt(s) == Some(DigitsValue(s) as int)
  {
    assert TrimStart(s) == s;
    assert SignlessBody(s) == s;
    LeadingDigitsOfDigits(s);
  }

  lemma {:induction false} LeadingDigitsOfDigits(s: string)
    requires AllDigits(s)
    ensures LeadingDigits(s) == s
  {
    if s != [] {
      LeadingDigitsOfDigits(s[1..]);
    }
  }

  // ------------------------------------------------ case and regex helpers

  /** `toUpperCase` on an ASCII letter; other characters are left alone. */
  function Upper(c: char): char {
    if 'a' <= c <= 'z' then ((c as int) - 32) as char else c
  }

  /** `toUpperCase` on a string, character by character. */
  function UpperString(s: string): string {
    if s == [] then [] else [Upper(s[0])] + UpperString(s[1..])
  }

  /** `c` matches the lower-case ASCII letter `lower` under the `i` flag. */
  predicate IsCi(c: char, lower: char) {
    c == lower || c == Upper(lower)
  }

  /** Skips `\s*` from position `i`. */
  function SkipSpace(s: string, i: nat): (j: nat)
    requires i <= |s|
    ensures i <= j <= |s|
    decreases |s| - i
  {
    if i < |s| && IsSpace(s[i]) then SkipSpace(s, i + 1) else i
  }

  /** `SkipSpace` stops at the first non-whitespace character at or after `i`. */
  lemma {:induction false} SkipSpaceSpec(s: string, i: nat)
    requires i <= |s|
    ensures AllSpace(s[i..SkipSpace(s, i)])
    ensures SkipSpace(s, i) < |s| ==> !IsSpace(s[SkipSpace(s, i)])
    decreases |s| - i
  {
    if i < |s| && IsSpace(s[i]) {
      var j := SkipSpace(s, i + 1);
      SkipSpaceSpec(s, i + 1);
      assert s[i..j] == [s[i]] + s[i + 1..j];
    }
  }
}
